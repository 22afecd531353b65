/** A directory tree as ConfigDiff may find it, and what its traversal finds there. */
module DirectoryTree {
  import opened Basics

  type Name = string
  // A relative path is the sequence of its components; "." is the empty path.
  type Path = seq<Name>
  type Bytes = seq<int>

  /** How one system call ends: well, with EACCES, EPERM or ENOENT, or with any other failure. */
  datatype Access = Works | Unreadable(reason: string) | Breaks

  datatype Meta = Meta(mode: int, uid: int, gid: int)

  /**
   * A node as it is on disk, together with how the system calls on it end. A directory's `scan` fails, if it does,
   * after `seen` of its children were listed.
   */
  datatype Node =
    | File(meta: Meta, data: Bytes, open: Access, hash: Access)
    | Link(meta: Meta, size: nat, target: string, read: Access)
    | Directory(meta: Meta, sameFilesystem: bool, open: Access, scan: Access, seen: nat, children: seq<Child>)
    | Special(meta: Meta, kind: SpecialKind, rdev: int)

  datatype SpecialKind = Fifo | Socket | CharDevice | BlockDevice | Other

  datatype Child = Child(name: Name, stat: Access, node: Node)

  // ----- what is really there

  function Named(children: seq<Child>, name: Name): (r: Option<Child>)
    ensures r.Some? ==> r.value in children && r.value.name == name
  {
    if children == [] then None
    else if children[0].name == name then Some(children[0])
    else Named(children[1..], name)
  }

  function ChildrenOf(n: Node): seq<Child> {
    if n.Directory? then n.children else []
  }

  /** The node at a non-empty relative path. */
  function NodeAt(children: seq<Child>, path: Path): Option<Node>
    decreases |path|
  {
    if path == [] then None
    else match Named(children, path[0])
      case None => None
      case Some(c) => if |path| == 1 then Some(c.node) else NodeAt(ChildrenOf(c.node), path[1..])
  }

  predicate IsMount(n: Node) {
    n.Directory? && !n.sameFilesystem
  }

  /** Some directory strictly above the path is a mount point of another filesystem. */
  predicate CrossesMount(children: seq<Child>, path: Path)
    decreases |path|
  {
    |path| > 1 && Named(children, path[0]).Some? &&
    var n := Named(children, path[0]).value.node;
    IsMount(n) || CrossesMount(ChildrenOf(n), path[1..])
  }

  ghost predicate DistinctChildNames(children: seq<Child>) {
    forall i, j | 0 <= i < j < |children| :: children[i].name != children[j].name
  }

  /** No directory lists a name twice. */
  ghost predicate ProperChild(c: Child)
    decreases c, 0
  {
    c.node.Directory? ==> ProperChildren(c.node.children)
  }

  ghost predicate ProperChildren(children: seq<Child>)
    decreases children, 1
  {
    DistinctChildNames(children) && forall c | c in children :: ProperChild(c)
  }

  // ----- what the traversal records

  datatype Kind = FileKind | SymlinkKind | DirectoryKind | SpecialNode(special: SpecialKind)

  datatype Entry = Entry(
    path: Path,
    kind: Kind,
    size: nat,
    sha256: Option<string>,
    meta: Meta,
    target: Option<string>,
    device: Option<int>)

  /** The lists `collect_directory` appends to. */
  datatype Found = Found(
    entries: seq<Entry>,
    limited: seq<Path>,
    otherFilesystems: seq<Path>,
    unreadable: seq<(Path, string)>)

  const NOTHING: Found := Found([], [], [], [])

  function Plus(a: Found, b: Found): Found {
    Found(a.entries + b.entries, a.limited + b.limited, a.otherFilesystems + b.otherFilesystems,
          a.unreadable + b.unreadable)
  }

  function EntryOf(path: Path, n: Node, hash: Bytes -> string): Entry {
    match n
    case File(meta, data, _, _) => Entry(path, FileKind, |data|, Some(hash(data)), meta, None, None)
    case Link(meta, size, target, _) => Entry(path, SymlinkKind, size, None, meta, Some(target), None)
    case Directory(meta, _, _, _, _, _) => Entry(path, DirectoryKind, 0, None, meta, None, None)
    case Special(meta, kind, rdev) =>
      Entry(path, SpecialNode(kind), 0, None, meta, None,
            if kind.CharDevice? || kind.BlockDevice? then Some(rdev) else None)
  }

  function Single(e: Entry): Found { Found([e], [], [], []) }

  function Failed(path: Path, a: Access): Found {
    if a.Unreadable? then Found([], [], [], [(path, a.reason)]) else NOTHING
  }

  /** The children whose metadata is read before a directory's scan ends. */
  function Listed(n: Node): (r: seq<Child>)
    requires n.Directory?
    ensures r <= n.children
  {
    if n.scan.Works? || |n.children| <= n.seen then n.children else n.children[..n.seen]
  }

  /** Options of one traversal. */
  datatype Options = Options(maxDepth: nat, hash: Bytes -> string)

  /** `inspect_child` and the handler around it: an unreadable child is noted, its directory entry kept. */
  function FoundChild(o: Options, c: Child, prefix: Path, depth: nat): Found
    decreases c, 0
  {
    var path := prefix + [c.name];
    var e := Single(EntryOf(path, c.node, o.hash));
    match c.node
    case File(_, _, open, hash) =>
      if !open.Works? then Failed(path, open) else if !hash.Works? then Failed(path, hash) else e
    case Link(_, _, _, read) => if !read.Works? then Failed(path, read) else e
    case Special(_, _, _) => e
    case Directory(_, sameFilesystem, open, scan, seen, children) =>
      if !sameFilesystem then Plus(e, Found([], [], [path], []))
      else if !open.Works? then Plus(e, Failed(path, open))
      else if depth < o.maxDepth then
        var below := Plus(FoundStats(Listed(c.node), path),
                          if scan.Works? then FoundChildren(o, children, path, depth + 1) else NOTHING);
        Plus(e, Plus(below, Failed(path, scan)))
      else if !scan.Works? && (children == [] || seen == 0) then Plus(e, Failed(path, scan))
      else if children != [] then Plus(e, Found([], [path], [], []))
      else e
  }

  /** The inspection loop of `visit` over the children whose stat succeeded. */
  function FoundChildren(o: Options, children: seq<Child>, prefix: Path, depth: nat): Found
    decreases children, 1
  {
    if children == [] then NOTHING
    else Plus(if children[0].stat.Works? then FoundChild(o, children[0], prefix, depth) else NOTHING,
              FoundChildren(o, children[1..], prefix, depth))
  }

  /** The listing loop of `visit`: children whose stat failed. */
  function FoundStats(children: seq<Child>, prefix: Path): Found {
    if children == [] then NOTHING
    else Plus(Failed(prefix + [children[0].name], children[0].stat), FoundStats(children[1..], prefix))
  }

  /** Everything below a root whose own scan works. */
  function FoundBelow(o: Options, children: seq<Child>): Found {
    Plus(FoundStats(children, []), FoundChildren(o, children, [], 0))
  }
}
