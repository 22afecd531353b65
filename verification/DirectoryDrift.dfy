/** ConfigDiff's `compare_directories` and what its verdict means for the two trees. */
module DirectoryDrift {
  import opened Basics
  import opened DirectoryTree
  import opened DirectoryTruth
  import opened DirectoryCollect

  datatype Flags = Flags(permissions: bool, ownership: bool)

  /** The `unexamined` notes: (below --max-depth), (other filesystem) and (unreadable: reason). */
  datatype Note = BelowMaxDepth | OtherFilesystem | NotReadable(reason: string)

  datatype Comparison = Comparison(
    added: set<Path>,
    removed: set<Path>,
    changed: set<Path>,
    drift: bool,
    unexamined: set<(Path, Note)>)

  predicate Differs(f: Flags, a: Entry, b: Entry) {
    || (a.kind, a.size, a.sha256, a.target, a.device) != (b.kind, b.size, b.sha256, b.target, b.device)
    || (f.permissions && a.meta.mode != b.meta.mode)
    || (f.ownership && (a.meta.uid, a.meta.gid) != (b.meta.uid, b.meta.gid))
  }

  /** The dictionary of entries by relative path; a later entry replaces an earlier one. */
  function ByPath(entries: seq<Entry>): map<Path, Entry> {
    if entries == [] then map[] else
      var last := entries[|entries| - 1];
      ByPath(entries[..|entries| - 1])[last.path := last]
  }

  function Side(c: Collected): map<Path, Entry> {
    ByPath([c.root] + c.found.entries)
  }

  /** `unexamined_path`. */
  predicate Hidden(a: Found, b: Found, path: Path) {
    exists u | u in a.unreadable + b.unreadable :: u.0 <= path
  }

  function Notes(f: Found): set<(Path, Note)> {
    (set p | p in f.limited :: (p, BelowMaxDepth)) + (set p | p in f.otherFilesystems :: (p, OtherFilesystem))
    + (set u | u in f.unreadable :: (u.0, NotReadable(u.1)))
  }

  /** The specification of the comparison. */
  function Compared(a: Collected, b: Collected, f: Flags): Comparison {
    var left, right := Side(a), Side(b);
    var added := set p | p in right.Keys && p !in left.Keys && !Hidden(a.found, b.found, p);
    var removed := set p | p in left.Keys && p !in right.Keys && !Hidden(a.found, b.found, p);
    var changed := set p | p in left.Keys && p in right.Keys && Differs(f, left[p], right[p]);
    Comparison(added, removed, changed, added != {} || removed != {} || changed != {}, Notes(a.found) + Notes(b.found))
  }

  method Index(c: Collected) returns (m: map<Path, Entry>)
    ensures m == Side(c)
  {
    var entries := [c.root] + c.found.entries;
    m := map[];
    for i := 0 to |entries|
      invariant m == ByPath(entries[..i])
    {
      assert entries[..i + 1][..i] == entries[..i];
      m := m[entries[i].path := entries[i]];
    }
    assert entries[..|entries|] == entries;
  }

  /** The loop over the common names. */
  method FindChanged(left: map<Path, Entry>, right: map<Path, Entry>, f: Flags) returns (changed: set<Path>)
    ensures changed == set p | p in left.Keys && p in right.Keys && Differs(f, left[p], right[p])
  {
    changed := {};
    var todo := left.Keys * right.Keys;
    while todo != {}
      invariant todo <= left.Keys * right.Keys
      invariant changed == set p | p in left.Keys && p in right.Keys && p !in todo && Differs(f, left[p], right[p])
      decreases |todo|
    {
      var name :| name in todo;
      if Differs(f, left[name], right[name]) { changed := changed + {name}; }
      todo := todo - {name};
    }
  }

  method CompareDirectories(a: Collected, b: Collected, f: Flags) returns (r: Comparison)
    ensures r == Compared(a, b, f)
  {
    hide Side, Hidden, Notes, Differs;
    var left := Index(a);
    var right := Index(b);
    var added := set p | p in right.Keys - left.Keys && !Hidden(a.found, b.found, p);
    var removed := set p | p in left.Keys - right.Keys && !Hidden(a.found, b.found, p);
    var changed := FindChanged(left, right, f);
    assert added == Compared(a, b, f).added && removed == Compared(a, b, f).removed;
    return Comparison(added, removed, changed, added != {} || removed != {} || changed != {},
                      Notes(a.found) + Notes(b.found));
  }

  // ----- what the two dictionaries say about the trees

  /** A successful traversal of a proper tree. */
  ghost predicate Traversed(o: Options, root: Node, c: Collected) {
    && root.Directory? && ProperChildren(root.children)
    && !BrokenStats(root.children) && !BrokenChildren(o, root.children, 0)
    && c == Collected(FoundBelow(o, root.children), EntryOf([], root, o.hash))
  }

  /** The node at a relative path, the root included. */
  function At(root: Node, path: Path): Option<Node> {
    if path == [] then Some(root) else NodeAt(ChildrenOf(root), path)
  }

  lemma {:induction false} ByPathHas(entries: seq<Entry>, p: Path)
    ensures p in ByPath(entries) <==> exists e | e in entries :: e.path == p
    ensures p in ByPath(entries) ==> ByPath(entries)[p] in entries && ByPath(entries)[p].path == p
  {
    if entries != [] {
      var init, last := entries[..|entries| - 1], entries[|entries| - 1];
      assert entries == init + [last];
      ByPathHas(init, p);
      if e :| e in entries && e.path == p && e != last { assert e in init; }
    }
  }

  /** Every indexed entry describes the real node at its path, within the depth limit and below no mount point. */
  lemma SideIsTrue(o: Options, root: Node, c: Collected, p: Path)
    requires Traversed(o, root, c) && p in Side(c)
    ensures At(root, p).Some? && Side(c)[p] == EntryOf(p, At(root, p).value, o.hash)
    ensures p != [] ==> !CrossesMount(root.children, p) && |p| <= o.maxDepth + 1
  {
    TraversalIsTruthful(o, root.children);
    ByPathHas([c.root] + c.found.entries, p);
    var e := Side(c)[p];
    if e in c.found.entries {
      assert TrueEntry(o, root.children, [], 0, e);
      assert p[0..] == p;
    } else {
      assert e == c.root;
    }
  }

  lemma SideHas(o: Options, root: Node, c: Collected, p: Path, n: Node)
    requires Traversed(o, root, c) && EntryOf(p, n, o.hash) in c.found.entries
    ensures p in Side(c)
  {
    ByPathHas([c.root] + c.found.entries, p);
    assert EntryOf(p, n, o.hash) in [c.root] + c.found.entries;
  }

  lemma RootIsIndexed(c: Collected)
    requires c.root.path == []
    ensures [] in Side(c)
  {
    ByPathHas([c.root] + c.found.entries, []);
    assert c.root in [c.root] + c.found.entries;
  }

  /** A mount point above a path is crossed on the way to it. */
  lemma {:induction false} MountAbove(children: seq<Child>, q: Path, p: Path)
    requires q != [] && q < p && NodeAt(children, q).Some? && IsMount(NodeAt(children, q).value)
    ensures CrossesMount(children, p)
    decreases |q|
  {
    if |q| > 1 {
      assert q[1..] < p[1..];
      MountAbove(ChildrenOf(Named(children, q[0]).value.node), q[1..], p[1..]);
    }
  }

  /** A real node that is not indexed lies at or below something unreadable, too deep, or beyond a mount point. */
  lemma MissingIsExplained(o: Options, root: Node, c: Collected, p: Path)
    requires Traversed(o, root, c) && At(root, p).Some? && p !in Side(c)
    ensures (exists u | u in c.found.unreadable :: u.0 <= p) || |p| > o.maxDepth + 1 || CrossesMount(root.children, p)
    ensures Notes(c.found) != {}
  {
    if p == [] { RootIsIndexed(c); }
    var n := At(root, p).value;
    TraversalCovers(o, root.children, p);
    TraversalIsTruthful(o, root.children);
    if EntryOf(p, n, o.hash) in c.found.entries { SideHas(o, root, c, p, n); }
    hide FoundBelow;
    assert Gap(c.found, p);
    if u :| u in c.found.unreadable && u.0 <= p {
      assert (u.0, NotReadable(u.1)) in Notes(c.found);
    } else if d :| d in c.found.limited && d < p {
      assert TrueLimit(o, root.children, [], 0, d);
      assert (d, BelowMaxDepth) in Notes(c.found);
    } else {
      var d :| d in c.found.otherFilesystems && d < p;
      assert TrueMount(o, root.children, [], 0, d) && d[0..] == d;
      MountAbove(root.children, d, p);
      assert (d, OtherFilesystem) in Notes(c.found);
    }
  }

  // ----- what added, removed and changed mean

  /** The two trees differ at a path. */
  ghost predicate DifferAt(o: Options, f: Flags, a: Node, b: Node, p: Path) {
    match (At(a, p), At(b, p))
    case (Some(m), Some(n)) => Differs(f, EntryOf(p, m, o.hash), EntryOf(p, n, o.hash))
    case (None, None) => false
    case _ => true
  }

  /** A path reported as added exists in the current tree, and exists in the baseline only beyond a mount point. */
  lemma AddedIsReal(o: Options, a: Node, ca: Collected, b: Node, cb: Collected, f: Flags, p: Path)
    requires Traversed(o, a, ca) && Traversed(o, b, cb) && p in Compared(ca, cb, f).added
    ensures At(b, p).Some? && p != []
    ensures At(a, p).Some? ==> CrossesMount(a.children, p)
  {
    SideIsTrue(o, b, cb, p);
    RootIsIndexed(ca);
    if At(a, p).Some? {
      MissingIsExplained(o, a, ca, p);
      NotHidden(ca.found, cb.found, p);
    }
  }

  lemma NotHidden(a: Found, b: Found, p: Path)
    requires !Hidden(a, b, p)
    ensures forall u | u in a.unreadable || u in b.unreadable :: !(u.0 <= p)
  {
    forall u | u in a.unreadable || u in b.unreadable ensures !(u.0 <= p) { assert u in a.unreadable + b.unreadable; }
  }

  /**
   * When exactly a path that exists on both sides is still reported as added, although it was examined on the
   * current side and is not hidden by an unreadable entry: when the baseline keeps it beyond a mount point.
   */
  lemma FalselyAdded(o: Options, a: Node, ca: Collected, b: Node, cb: Collected, f: Flags, p: Path)
    requires Traversed(o, a, ca) && Traversed(o, b, cb)
    requires At(a, p).Some? && p in Side(cb) && !Hidden(ca.found, cb.found, p)
    ensures p in Compared(ca, cb, f).added <==> CrossesMount(a.children, p)
  {
    if CrossesMount(a.children, p) && p in Side(ca) { SideIsTrue(o, a, ca, p); }
    if p in Compared(ca, cb, f).added { AddedIsReal(o, a, ca, b, cb, f, p); }
  }

  /** A changed path exists on both sides and really differs; a difference seen on both sides is reported. */
  lemma ChangedIsReal(o: Options, a: Node, ca: Collected, b: Node, cb: Collected, f: Flags, p: Path)
    requires Traversed(o, a, ca) && Traversed(o, b, cb)
    ensures p in Compared(ca, cb, f).changed ==> At(a, p).Some? && At(b, p).Some? && DifferAt(o, f, a, b, p)
    ensures p in Side(ca) && p in Side(cb) && DifferAt(o, f, a, b, p) ==> p in Compared(ca, cb, f).changed
  {
    if p in Side(ca) { SideIsTrue(o, a, ca, p); }
    if p in Side(cb) { SideIsTrue(o, b, cb, p); }
  }

  lemma HiddenIsNoted(a: Found, b: Found, p: Path)
    ensures Hidden(a, b, p) ==> Notes(a) + Notes(b) != {}
  {
    if u :| u in a.unreadable + b.unreadable && u.0 <= p {
      if u in a.unreadable {
        assert (u.0, NotReadable(u.1)) in Notes(a);
      } else {
        assert (u.0, NotReadable(u.1)) in Notes(b);
      }
    }
  }

  lemma NotesOf(a: Found, b: Found)
    requires Notes(a) + Notes(b) == {}
    ensures Notes(a) == {} && Notes(b) == {} && forall p :: !Hidden(a, b, p)
  {
    forall p ensures !Hidden(a, b, p) { HiddenIsNoted(a, b, p); }
  }

  /** The digest is taken to identify the content. */
  ghost predicate Injective(hash: Bytes -> string) {
    forall x, y | hash(x) == hash(y) :: x == y
  }

  /** Two nodes agree in kind and content, and in the metadata the flags ask for. */
  predicate SameNode(f: Flags, m: Node, n: Node) {
    && (match (m, n)
        case (File(_, x, _, _), File(_, y, _, _)) => x == y
        case (Link(_, i, s, _), Link(_, j, t, _)) => i == j && s == t
        case (Directory(_, _, _, _, _, _), Directory(_, _, _, _, _, _)) => true
        case (Special(_, k, i), Special(_, l, j)) => k == l && (k.CharDevice? || k.BlockDevice? ==> i == j)
        case _ => false)
    && (f.permissions ==> m.meta.mode == n.meta.mode)
    && (f.ownership ==> m.meta.uid == n.meta.uid && m.meta.gid == n.meta.gid)
  }

  /** Entries compare equal exactly when the nodes they describe agree. */
  lemma EntriesIdentifyNodes(o: Options, f: Flags, p: Path, m: Node, n: Node)
    requires Injective(o.hash)
    ensures !Differs(f, EntryOf(p, m, o.hash), EntryOf(p, n, o.hash)) <==> SameNode(f, m, n)
  {}

  /** The verdict: with nothing unexamined, drift is reported exactly when the trees differ somewhere. */
  lemma VerdictIsExact(o: Options, a: Node, ca: Collected, b: Node, cb: Collected, f: Flags)
    requires Traversed(o, a, ca) && Traversed(o, b, cb) && Compared(ca, cb, f).unexamined == {}
    ensures Compared(ca, cb, f).drift <==> exists p :: DifferAt(o, f, a, b, p)
    ensures forall p :: p in Compared(ca, cb, f).added <==> At(a, p).None? && At(b, p).Some?
    ensures forall p :: p in Compared(ca, cb, f).removed <==> At(a, p).Some? && At(b, p).None?
    ensures forall p :: p in Compared(ca, cb, f).changed <==>
      At(a, p).Some? && At(b, p).Some? && DifferAt(o, f, a, b, p)
  {
    var r := Compared(ca, cb, f);
    NotesOf(ca.found, cb.found);
    forall p: Path
      ensures p in Side(ca) <==> At(a, p).Some?
      ensures p in Side(cb) <==> At(b, p).Some?
      ensures p in r.changed <==> At(a, p).Some? && At(b, p).Some? && DifferAt(o, f, a, b, p)
    {
      IndexedExactly(o, a, ca, p);
      IndexedExactly(o, b, cb, p);
      ChangedIsReal(o, a, ca, b, cb, f, p);
    }
    VerdictFromParts(o, f, a, b, r);
  }

  lemma IndexedExactly(o: Options, root: Node, c: Collected, p: Path)
    requires Traversed(o, root, c) && Notes(c.found) == {}
    ensures p in Side(c) <==> At(root, p).Some?
  {
    if p in Side(c) { SideIsTrue(o, root, c, p); }
    if At(root, p).Some? && p !in Side(c) { MissingIsExplained(o, root, c, p); }
  }

  lemma VerdictFromParts(o: Options, f: Flags, a: Node, b: Node, r: Comparison)
    requires r.drift == (r.added != {} || r.removed != {} || r.changed != {})
    requires forall p :: p in r.added <==> At(a, p).None? && At(b, p).Some?
    requires forall p :: p in r.removed <==> At(a, p).Some? && At(b, p).None?
    requires forall p :: p in r.changed <==> At(a, p).Some? && At(b, p).Some? && DifferAt(o, f, a, b, p)
    ensures r.drift <==> exists p :: DifferAt(o, f, a, b, p)
  {
    hide At;
    if r.drift {
      var p :| p in r.added || p in r.removed || p in r.changed;
      assert DifferAt(o, f, a, b, p);
    }
    if p :| DifferAt(o, f, a, b, p) {
      assert p in r.added || p in r.removed || p in r.changed;
    }
  }

  /** Nothing at or below an unreadable entry of either side is reported as added or removed. */
  lemma UnreadableIsSilent(a: Collected, b: Collected, f: Flags, u: (Path, string), p: Path)
    requires (u in a.found.unreadable || u in b.found.unreadable) && u.0 <= p
    ensures p !in Compared(a, b, f).added && p !in Compared(a, b, f).removed
  {
    assert u in a.found.unreadable + b.found.unreadable;
  }

  /** Swapping the arguments swaps added and removed and keeps the rest. */
  lemma SwapSymmetry(a: Collected, b: Collected, f: Flags)
    ensures
      var r, s := Compared(a, b, f), Compared(b, a, f);
      s.added == r.removed && s.removed == r.added && s.changed == r.changed && s.drift == r.drift &&
        s.unexamined == r.unexamined
  {
    forall p ensures Hidden(a.found, b.found, p) <==> Hidden(b.found, a.found, p) {
      if u :| u in a.found.unreadable + b.found.unreadable && u.0 <= p {
        assert u in b.found.unreadable + a.found.unreadable;
      }
      if u :| u in b.found.unreadable + a.found.unreadable && u.0 <= p {
        assert u in a.found.unreadable + b.found.unreadable;
      }
    }
    var r, s := Compared(a, b, f), Compared(b, a, f);
    assert s.added == r.removed && s.removed == r.added && s.changed == r.changed;
  }

  // ----- the comparison in terms of the two trees alone

  /** A node within the depth limit, behind no mount point and at or below nothing reported as unreadable. */
  ghost predicate Examined(o: Options, root: Node, r: Comparison, p: Path) {
    && At(root, p).Some? && |p| <= o.maxDepth + 1 && !CrossesMount(ChildrenOf(root), p)
    && forall u | u in r.unexamined && u.1.NotReadable? :: !(u.0 <= p)
  }

  /** What is reported is so, but for additions and removals behind a mount point of the other side. */
  ghost predicate ReportIsSound(o: Options, f: Flags, a: Node, b: Node, r: Comparison) {
    && (forall p | p in r.added :: At(b, p).Some? && (At(a, p).None? || CrossesMount(ChildrenOf(a), p)))
    && (forall p | p in r.removed :: At(a, p).Some? && (At(b, p).None? || CrossesMount(ChildrenOf(b), p)))
    && (forall p | p in r.changed :: At(a, p).Some? && At(b, p).Some? && DifferAt(o, f, a, b, p))
  }

  /** What was examined and differs is reported, whatever else was left unexamined. */
  ghost predicate ReportIsComplete(o: Options, f: Flags, a: Node, b: Node, r: Comparison) {
    && (forall p | Examined(o, b, r, p) && At(a, p).None? :: p in r.added)
    && (forall p | Examined(o, a, r, p) && At(b, p).None? :: p in r.removed)
    && (forall p | Examined(o, a, r, p) && Examined(o, b, r, p) && DifferAt(o, f, a, b, p) :: p in r.changed)
  }

  ghost predicate NotedAbove(r: Comparison, p: Path) {
    exists u :: u in r.unexamined && u.0 <= p
  }

  /** Every difference is reported, or lies at or below a path that is noted as unexamined. */
  ghost predicate NothingIsSilent(o: Options, f: Flags, a: Node, b: Node, r: Comparison) {
    forall p | DifferAt(o, f, a, b, p) :: p in r.added || p in r.removed || p in r.changed || NotedAbove(r, p)
  }

  /** Depth and mount notes are true of one of the trees. */
  ghost predicate NotesAreTrue(o: Options, a: Node, b: Node, r: Comparison) {
    && (forall u | u in r.unexamined && u.1 == BelowMaxDepth ::
          |u.0| == o.maxDepth + 1 && (At(a, u.0).Some? || At(b, u.0).Some?))
    && (forall u | u in r.unexamined && u.1 == OtherFilesystem ::
          (At(a, u.0).Some? && IsMount(At(a, u.0).value)) || (At(b, u.0).Some? && IsMount(At(b, u.0).value)))
  }

  ghost predicate Faithful(o: Options, f: Flags, a: Node, b: Node, r: Comparison) {
    && ReportIsSound(o, f, a, b, r) && ReportIsComplete(o, f, a, b, r)
    && NothingIsSilent(o, f, a, b, r) && NotesAreTrue(o, a, b, r)
  }

  /** Both sides at once, so that what holds for added holds for removed by symmetry. */
  ghost predicate BothTraversed(o: Options, a: Node, ca: Collected, b: Node, cb: Collected) {
    Traversed(o, a, ca) && Traversed(o, b, cb)
  }

  lemma UnreadableIsNoted(ca: Collected, cb: Collected, f: Flags, p: Path)
    ensures Hidden(ca.found, cb.found, p) ==>
      exists u :: u in Compared(ca, cb, f).unexamined && u.1.NotReadable? && u.0 <= p
  {
    if u :| u in ca.found.unreadable + cb.found.unreadable && u.0 <= p {
      var note := (u.0, NotReadable(u.1));
      assert note in Notes(ca.found) + Notes(cb.found);
    }
  }

  /** A node that is not indexed was not examined. */
  lemma ExaminedIsIndexed(o: Options, a: Node, ca: Collected, r: Comparison, p: Path)
    requires Traversed(o, a, ca) && Notes(ca.found) <= r.unexamined
    ensures Examined(o, a, r, p) ==> p in Side(ca)
  {
    if p !in Side(ca) && At(a, p).Some? {
      MissingIsExplained(o, a, ca, p);
      if u :| u in ca.found.unreadable && u.0 <= p { assert (u.0, NotReadable(u.1)) in Notes(ca.found); }
    }
  }

  lemma AddedIsComplete(o: Options, f: Flags, a: Node, ca: Collected, b: Node, cb: Collected, p: Path)
    requires BothTraversed(o, a, ca, b, cb)
    requires At(a, p).None? && Examined(o, b, Compared(ca, cb, f), p)
    ensures p in Compared(ca, cb, f).added
  {
    ExaminedIsIndexed(o, b, cb, Compared(ca, cb, f), p);
    if p in Side(ca) { SideIsTrue(o, a, ca, p); }
    UnreadableIsNoted(ca, cb, f, p);
  }

  lemma SideOrNote(o: Options, a: Node, ca: Collected, p: Path)
    requires Traversed(o, a, ca) && At(a, p).Some? && p !in Side(ca)
    ensures exists u :: u in Notes(ca.found) && u.0 <= p
  {
    if p == [] { RootIsIndexed(ca); }
    var n := At(a, p).value;
    TraversalCovers(o, a.children, p);
    if EntryOf(p, n, o.hash) in ca.found.entries { SideHas(o, a, ca, p, n); }
    hide FoundBelow;
    assert Gap(ca.found, p);
    if u :| u in ca.found.unreadable && u.0 <= p {
      assert (u.0, NotReadable(u.1)) in Notes(ca.found);
    } else if d :| d in ca.found.limited && d < p {
      assert (d, BelowMaxDepth) in Notes(ca.found);
    } else {
      var d :| d in ca.found.otherFilesystems && d < p;
      assert (d, OtherFilesystem) in Notes(ca.found);
    }
  }

  lemma DifferenceShows(o: Options, f: Flags, a: Node, ca: Collected, b: Node, cb: Collected, p: Path)
    requires BothTraversed(o, a, ca, b, cb) && DifferAt(o, f, a, b, p)
    ensures
      var r := Compared(ca, cb, f);
      p in r.added || p in r.removed || p in r.changed || NotedAbove(r, p)
  {
    var r := Compared(ca, cb, f);
    if p in Side(ca) { SideIsTrue(o, a, ca, p); } else if At(a, p).Some? { SideOrNote(o, a, ca, p); }
    if p in Side(cb) { SideIsTrue(o, b, cb, p); } else if At(b, p).Some? { SideOrNote(o, b, cb, p); }
    UnreadableIsNoted(ca, cb, f, p);
    ChangedIsReal(o, a, ca, b, cb, f, p);
  }

  lemma NoteIsTrue(o: Options, root: Node, c: Collected, u: (Path, Note))
    requires Traversed(o, root, c) && u in Notes(c.found)
    ensures u.1 == BelowMaxDepth ==> |u.0| == o.maxDepth + 1 && At(root, u.0).Some?
    ensures u.1 == OtherFilesystem ==> At(root, u.0).Some? && IsMount(At(root, u.0).value)
  {
    TraversalIsTruthful(o, root.children);
    hide FoundBelow;
    assert u.0[0..] == u.0;
    if u.1 == BelowMaxDepth {
      assert TrueLimit(o, root.children, [], 0, u.0);
    } else if u.1 == OtherFilesystem {
      assert TrueMount(o, root.children, [], 0, u.0);
    }
  }

  lemma ComparedIsSound(o: Options, f: Flags, a: Node, ca: Collected, b: Node, cb: Collected)
    requires BothTraversed(o, a, ca, b, cb)
    ensures ReportIsSound(o, f, a, b, Compared(ca, cb, f))
  {
    var r := Compared(ca, cb, f);
    SwapSymmetry(ca, cb, f);
    assert ChildrenOf(a) == a.children && ChildrenOf(b) == b.children;
    hide Compared, DifferAt, At, CrossesMount, ProperChildren, FoundBelow;
    forall p | p in r.added ensures At(b, p).Some? && (At(a, p).None? || CrossesMount(ChildrenOf(a), p)) {
      AddedIsReal(o, a, ca, b, cb, f, p);
    }
    forall p | p in r.removed ensures At(a, p).Some? && (At(b, p).None? || CrossesMount(ChildrenOf(b), p)) {
      AddedIsReal(o, b, cb, a, ca, f, p);
    }
    forall p | p in r.changed ensures At(a, p).Some? && At(b, p).Some? && DifferAt(o, f, a, b, p) {
      ChangedIsReal(o, a, ca, b, cb, f, p);
    }
  }

  lemma NotesAreUnexamined(ca: Collected, cb: Collected, f: Flags)
    ensures Compared(ca, cb, f).unexamined == Notes(ca.found) + Notes(cb.found)
    ensures
      var r := Compared(ca, cb, f);
      r.drift <==> r.added != {} || r.removed != {} || r.changed != {}
  {}

  lemma ComparedIsComplete(o: Options, f: Flags, a: Node, ca: Collected, b: Node, cb: Collected)
    requires BothTraversed(o, a, ca, b, cb)
    ensures ReportIsComplete(o, f, a, b, Compared(ca, cb, f))
  {
    var r := Compared(ca, cb, f);
    SwapSymmetry(ca, cb, f);
    NotesAreUnexamined(ca, cb, f);
    hide Compared, DifferAt, At, CrossesMount, Notes, Traversed;
    forall p | Examined(o, b, r, p) && At(a, p).None? ensures p in r.added {
      AddedIsComplete(o, f, a, ca, b, cb, p);
    }
    forall p | Examined(o, a, r, p) && At(b, p).None? ensures p in r.removed {
      assert Examined(o, a, Compared(cb, ca, f), p);
      AddedIsComplete(o, f, b, cb, a, ca, p);
    }
    forall p | Examined(o, a, r, p) && Examined(o, b, r, p) && DifferAt(o, f, a, b, p) ensures p in r.changed {
      ExaminedIsIndexed(o, a, ca, r, p);
      ExaminedIsIndexed(o, b, cb, r, p);
      ChangedIsReal(o, a, ca, b, cb, f, p);
    }
  }

  lemma ComparedNotes(o: Options, f: Flags, a: Node, ca: Collected, b: Node, cb: Collected)
    requires BothTraversed(o, a, ca, b, cb)
    ensures NothingIsSilent(o, f, a, b, Compared(ca, cb, f)) && NotesAreTrue(o, a, b, Compared(ca, cb, f))
  {
    var r := Compared(ca, cb, f);
    NotesAreUnexamined(ca, cb, f);
    hide Compared, DifferAt, At, Notes, Traversed, NotedAbove;
    forall p | DifferAt(o, f, a, b, p)
      ensures p in r.added || p in r.removed || p in r.changed || NotedAbove(r, p)
    {
      DifferenceShows(o, f, a, ca, b, cb, p);
    }
    forall u | u in r.unexamined
      ensures u.1 == BelowMaxDepth ==> |u.0| == o.maxDepth + 1 && (At(a, u.0).Some? || At(b, u.0).Some?)
      ensures u.1 == OtherFilesystem ==>
        (At(a, u.0).Some? && IsMount(At(a, u.0).value)) || (At(b, u.0).Some? && IsMount(At(b, u.0).value))
    {
      if u in Notes(ca.found) { NoteIsTrue(o, a, ca, u); } else { NoteIsTrue(o, b, cb, u); }
    }
  }

  /** The comparison of two successful traversals tells the truth about the trees and hides nothing. */
  lemma ComparedIsFaithful(o: Options, f: Flags, a: Node, ca: Collected, b: Node, cb: Collected)
    requires BothTraversed(o, a, ca, b, cb)
    ensures
      var r := Compared(ca, cb, f);
      Faithful(o, f, a, b, r) && (r.drift <==> r.added != {} || r.removed != {} || r.changed != {})
  {
    hide BothTraversed, Compared, ReportIsSound, ReportIsComplete, NothingIsSilent, NotesAreTrue;
    ComparedIsSound(o, f, a, ca, b, cb);
    ComparedIsComplete(o, f, a, ca, b, cb);
    ComparedNotes(o, f, a, ca, b, cb);
    NotesAreUnexamined(ca, cb, f);
  }

  /** Both traversals and the comparison; None when either side cannot be collected. */
  method CompareTrees(a: Node, b: Node, o: Options, maxFiles: nat, f: Flags) returns (r: Option<Comparison>)
    requires a.Directory? && b.Directory? && ProperChildren(a.children) && ProperChildren(b.children)
    ensures r.None? <==> RootFails(o, maxFiles, a) || RootFails(o, maxFiles, b)
    ensures IsModest(a, maxFiles) && IsModest(b, maxFiles) ==> r.Some?
    ensures r.Some? ==> (r.value.drift <==> r.value.added != {} || r.value.removed != {} || r.value.changed != {})
    ensures r.Some? ==> Faithful(o, f, a, b, r.value)
    ensures r.Some? && r.value.unexamined == {} ==> (r.value.drift <==> exists p :: DifferAt(o, f, a, b, p))
  {
    hide BrokenChildren, BrokenStats, CountChildren, BytesOfChildren, FoundBelow, Compared, Faithful;
    if IsModest(a, maxFiles) { ModestRootWorks(o, maxFiles, a); }
    if IsModest(b, maxFiles) { ModestRootWorks(o, maxFiles, b); }
    hide IsModest, RootFails;
    var ca := CollectDirectory(a, o, maxFiles);
    if ca.None? { return None; }
    var cb := CollectDirectory(b, o, maxFiles);
    if cb.None? { return None; }
    var compared := CompareDirectories(ca.value, cb.value, f);
    ComparedIsFaithful(o, f, a, ca.value, b, cb.value);
    if compared.unexamined == {} { VerdictIsExact(o, a, ca.value, b, cb.value, f); }
    return Some(compared);
  }
}
