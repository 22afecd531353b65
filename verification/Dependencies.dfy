/** HealthCtl's `_validate_dependencies`: a recursive depth-first search for dependency cycles. */
module Dependencies {
  import opened HealthChecks

  type Graph = map<string, seq<string>>

  ghost predicate Edge(g: Graph, a: string, b: string) {
    a in g && b in g[a]
  }

  ghost predicate IsWalk(g: Graph, p: seq<string>) {
    forall i :: 0 <= i < |p| - 1 ==> Edge(g, p[i], p[i + 1])
  }

  ghost predicate IsCycle(g: Graph, p: seq<string>) {
    |p| >= 2 && p[0] == p[|p| - 1] && IsWalk(g, p)
  }

  ghost predicate Cyclic(g: Graph) {
    exists p :: IsCycle(g, p)
  }

  ghost predicate Closed(g: Graph) {
    forall a, b | Edge(g, a, b) :: b in g
  }

  /** Every name in `order` comes after all of its dependencies. */
  ghost predicate DependenciesFirst(g: Graph, order: seq<string>) {
    forall i | 0 <= i < |order| :: order[i] in g && forall d | d in g[order[i]] :: d in order[..i]
  }

  ghost predicate TopologicalOrder(g: Graph, order: seq<string>) {
    DependenciesFirst(g, order) && forall n | n in g :: n in order
  }

  ghost predicate Acyclic(g: Graph) {
    exists order :: TopologicalOrder(g, order)
  }

  /** Position of the first occurrence of `n`. */
  ghost function Rank(order: seq<string>, n: string): (r: nat)
    requires n in order
    ensures r < |order| && order[r] == n && forall k | 0 <= k < r :: order[k] != n
  {
    if order[0] == n then 0 else
      1 + Rank(order[1..], n)
  }

  /** The rank of a topological order strictly decreases along every dependency edge. */
  lemma RankDecreases(g: Graph, order: seq<string>, a: string, b: string)
    requires TopologicalOrder(g, order) && Edge(g, a, b)
    ensures a in order && b in order && Rank(order, b) < Rank(order, a)
  {
    var r := Rank(order, a);
    assert order[r] == a && b in order[..r];
    var k :| 0 <= k < r && order[k] == b;
  }

  lemma {:induction false} WalkDescends(g: Graph, order: seq<string>, p: seq<string>)
    requires TopologicalOrder(g, order) && IsWalk(g, p) && |p| >= 2
    ensures p[0] in order && p[|p| - 1] in order
    ensures Rank(order, p[|p| - 1]) < Rank(order, p[0])
  {
    assert Edge(g, p[0], p[1]);
    RankDecreases(g, order, p[0], p[1]);
    if |p| > 2 {
      var q := p[1..];
      assert IsWalk(g, q) by {
        forall i | 0 <= i < |q| - 1 ensures Edge(g, q[i], q[i + 1]) {
          assert Edge(g, p[i + 1], p[i + 2]);
        }
      }
      WalkDescends(g, order, q);
    }
  }

  /** A graph with a topological order has no dependency cycle. */
  lemma AcyclicHasNoCycle(g: Graph)
    requires Acyclic(g)
    ensures !Cyclic(g)
  {
    var order :| TopologicalOrder(g, order);
    if Cyclic(g) {
      var p :| IsCycle(g, p);
      WalkDescends(g, order, p);
    }
  }

  /** The mutable state of the search; `path` and `order` are the ghost witnesses of its two sets. */
  class Search {
    const graph: Graph
    var visiting: set<string>
    var visited: set<string>
    ghost var path: seq<string>
    ghost var order: seq<string>

    ghost predicate Valid()
      reads this
    {
      && Closed(graph)
      && visiting <= graph.Keys
      && visiting !! visited
      && (forall n :: n in visiting <==> n in path)
      && (forall n :: n in visited <==> n in order)
      && IsWalk(graph, path)
      && DependenciesFirst(graph, order)
    }

    constructor (graph: Graph)
      requires Closed(graph)
      ensures Valid() && this.graph == graph && path == [] && visited == {}
    {
      this.graph := graph;
      visiting, visited, path, order := {}, {}, [], [];
    }

    /** `visit(check_name)`; true stands for the raised ConfigError. */
    method Visit(name: string) returns (cycle: bool)
      requires Valid() && name in graph
      requires path != [] ==> Edge(graph, path[|path| - 1], name)
      modifies this
      ensures cycle ==> Cyclic(graph)
      ensures !cycle ==> Valid() && path == old(path) && visiting == old(visiting)
      ensures !cycle ==> name in visited && old(visited) <= visited
      decreases graph.Keys - visiting
    {
      if name in visiting {
        ClosesCycle(graph, path, name);
        return true;
      }
      if name in visited {
        return false;
      }
      visiting := visiting + {name};
      ghost var before := path;
      path := path + [name];
      WalkExtends(graph, before, name);
      var dependencies := graph[name];
      for i := 0 to |dependencies|
        invariant Valid() && path == before + [name] && visiting == old(visiting) + {name}
        invariant old(visited) <= visited
        invariant forall j :: 0 <= j < i ==> dependencies[j] in visited
      {
        assert Edge(graph, name, dependencies[i]);
        cycle := Visit(dependencies[i]);
        if cycle { return; }
      }
      OrderExtends(graph, order, name);
      visiting := visiting - {name};
      visited := visited + {name};
      path := before;
      order := order + [name];
      assert IsWalk(graph, path);
      return false;
    }
  }

  lemma WalkExtends(g: Graph, p: seq<string>, n: string)
    requires IsWalk(g, p) && (p != [] ==> Edge(g, p[|p| - 1], n))
    ensures IsWalk(g, p + [n])
  {
    var q := p + [n];
    forall i | 0 <= i < |q| - 1 ensures Edge(g, q[i], q[i + 1]) {
      if i < |p| - 1 { assert Edge(g, p[i], p[i + 1]); }
    }
  }

  lemma OrderExtends(g: Graph, order: seq<string>, n: string)
    requires DependenciesFirst(g, order) && n in g
    requires forall j | 0 <= j < |g[n]| :: g[n][j] in order
    ensures DependenciesFirst(g, order + [n])
  {
    var longer := order + [n];
    forall i | 0 <= i < |longer| ensures longer[i] in g && forall d | d in g[longer[i]] :: d in longer[..i] {
      assert longer[..i] == order[..i];
    }
  }

  lemma ClosesCycle(g: Graph, p: seq<string>, n: string)
    requires IsWalk(g, p) && n in p && Edge(g, p[|p| - 1], n)
    ensures Cyclic(g)
  {
    WalkExtends(g, p, n);
    var k :| 0 <= k < |p| && p[k] == n;
    var q := p[k..] + [n];
    forall i | 0 <= i < |q| - 1 ensures Edge(g, q[i], q[i + 1]) {
      assert q[i] == (p + [n])[k + i] && q[i + 1] == (p + [n])[k + i + 1];
      assert Edge(g, (p + [n])[k + i], (p + [n])[k + i + 1]);
    }
    assert IsCycle(g, q);
  }

  /** `dependency_map` of the source. */
  function GraphOf(checks: seq<Check>): (g: Graph)
    requires DistinctNames(checks)
    ensures g.Keys == Names(checks)
    ensures forall c | c in checks :: g[c.name] == c.dependsOn
  {
    if checks == [] then map[] else
      var last := checks[|checks| - 1];
      var rest := GraphOf(checks[..|checks| - 1]);
      assert checks == checks[..|checks| - 1] + [last];
      rest[last.name := last.dependsOn]
  }

  predicate ValidDependency(names: set<string>, c: Check, d: string) {
    d in names && d != c.name
  }

  ghost predicate AllDependenciesValid(checks: seq<Check>) {
    forall c, d | c in checks && d in c.dependsOn :: ValidDependency(Names(checks), c, d)
  }

  datatype Validation = Accepted | InvalidDependency(check: string, dependency: string) | CycleFound

  /** The first offending (check, dependency) pair in configuration order. */
  ghost predicate FirstInvalid(checks: seq<Check>, check: string, dependency: string) {
    exists i, j ::
      && 0 <= i < |checks| && 0 <= j < |checks[i].dependsOn|
      && check == checks[i].name && dependency == checks[i].dependsOn[j]
      && !ValidDependency(Names(checks), checks[i], dependency)
      && (forall k | 0 <= k < j :: ValidDependency(Names(checks), checks[i], checks[i].dependsOn[k]))
      && (forall c, d | c in checks[..i] && d in c.dependsOn :: ValidDependency(Names(checks), c, d))
  }

  /** Every dependency names another check. */
  ghost predicate AllNameOthers(checks: seq<Check>) {
    forall c, d | c in checks && d in c.dependsOn :: d != c.name && exists e :: e in checks && e.name == d
  }

  lemma ValidMeans(checks: seq<Check>)
    ensures AllDependenciesValid(checks) <==> AllNameOthers(checks)
  {
    if AllDependenciesValid(checks) {
      forall c, d | c in checks && d in c.dependsOn ensures d != c.name && exists e :: e in checks && e.name == d {
        assert ValidDependency(Names(checks), c, d);
      }
    }
  }

  lemma GraphIsClosed(checks: seq<Check>)
    requires DistinctNames(checks) && AllDependenciesValid(checks)
    ensures Closed(GraphOf(checks))
  {
    var g := GraphOf(checks);
    forall a, b | Edge(g, a, b) ensures b in g {
      var c :| c in checks && c.name == a;
      assert ValidDependency(Names(checks), c, b);
    }
  }

  /** The first loop of the source: unknown and self dependencies. */
  method FindInvalidDependency(checks: seq<Check>) returns (r: Validation)
    ensures r.Accepted? <==> AllDependenciesValid(checks)
    ensures r.InvalidDependency? ==> FirstInvalid(checks, r.check, r.dependency)
    ensures !r.CycleFound?
  {
    var names := Names(checks);
    for i := 0 to |checks|
      invariant forall c, d | c in checks[..i] && d in c.dependsOn :: ValidDependency(names, c, d)
    {
      var c := checks[i];
      for j := 0 to |c.dependsOn|
        invariant forall k | 0 <= k < j :: ValidDependency(names, c, c.dependsOn[k])
      {
        if !(c.dependsOn[j] in names) || c.dependsOn[j] == c.name {
          assert !ValidDependency(names, c, c.dependsOn[j]);
          return InvalidDependency(c.name, c.dependsOn[j]);
        }
      }
      assert checks[..i + 1] == checks[..i] + [c];
    }
    assert checks[..|checks|] == checks;
    return Accepted;
  }

  /** Rejects unknown, self and cyclic dependencies, and nothing else. */
  method ValidateDependencies(checks: seq<Check>) returns (r: Validation)
    requires DistinctNames(checks)
    ensures r.Accepted? <==> AllDependenciesValid(checks) && !Cyclic(GraphOf(checks))
    ensures r.Accepted? ==> Acyclic(GraphOf(checks))
    ensures r.InvalidDependency? ==> FirstInvalid(checks, r.check, r.dependency)
    ensures r.CycleFound? <==> AllDependenciesValid(checks) && Cyclic(GraphOf(checks))
  {
    r := FindInvalidDependency(checks);
    if !r.Accepted? { return; }
    GraphIsClosed(checks);
    var graph := GraphOf(checks);
    var search := new Search(graph);
    for i := 0 to |checks|
      invariant search.Valid() && search.graph == graph && search.path == []
      invariant forall j | 0 <= j < i :: checks[j].name in search.visited
    {
      var cycle := search.Visit(checks[i].name);
      if cycle { return CycleFound; }
    }
    assert TopologicalOrder(graph, search.order);
    AcyclicHasNoCycle(graph);
  }
}
