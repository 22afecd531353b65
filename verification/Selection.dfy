/** HealthCtl's `--profile` and `--group` selection, done before a run. */
module Selection {
  import opened Basics
  import opened HealthChecks
  import opened Dependencies
  import opened SchedulerSpec

  datatype Choice = Any | Only(value: string) {
    predicate Allows(text: string) { Any? || value == text }
  }

  datatype Selected = Checks(checks: seq<Check>) | NothingSelected | OmitsDependency

  predicate Keeps(profile: Choice, group: Choice, c: Check) {
    profile.Allows(c.profile) && group.Allows(c.group)
  }

  /** The checks the selection keeps, in configuration order. */
  function Kept(checks: seq<Check>, profile: Choice, group: Choice): (kept: seq<Check>)
    ensures forall c :: c in kept <==> c in checks && Keeps(profile, group, c)
  {
    if checks == [] then [] else
      (if Keeps(profile, group, checks[0]) then [checks[0]] else []) + Kept(checks[1..], profile, group)
  }

  /** A choice admits everything or one text. */
  predicate Chosen(profile: Choice, group: Choice, c: Check) {
    && (profile == Any || profile == Only(c.profile))
    && (group == Any || group == Only(c.group))
  }

  ghost function ChosenBy(profile: Choice, group: Choice): Check -> bool {
    c => Chosen(profile, group, c)
  }

  /** The selection is the configuration without the checks that were not chosen. */
  lemma {:induction false} KeptIsFilter(checks: seq<Check>, profile: Choice, group: Choice)
    ensures Filters(Kept(checks, profile, group), checks, ChosenBy(profile, group))
  {
    if checks == [] {
      FiltersNothing(ChosenBy(profile, group));
    } else {
      KeptIsFilter(checks[1..], profile, group);
      assert checks == [checks[0]] + checks[1..];
      assert Keeps(profile, group, checks[0]) <==> ChosenBy(profile, group)(checks[0]);
      hide Filters, Keeps, ChosenBy;
      FiltersCons(Kept(checks[1..], profile, group), checks[1..], ChosenBy(profile, group), checks[0]);
    }
  }

  ghost predicate DependencyClosed(checks: seq<Check>) {
    forall c, d | c in checks && d in c.dependsOn :: d in Names(checks)
  }

  method Select(checks: seq<Check>, profile: Choice, group: Choice) returns (selected: Selected)
    ensures selected.NothingSelected? <==> Kept(checks, profile, group) == []
    ensures selected.OmitsDependency? <==>
      Kept(checks, profile, group) != [] && !DependencyClosed(Kept(checks, profile, group))
    ensures selected.Checks? ==> selected.checks == Kept(checks, profile, group) && DependencyClosed(selected.checks)
  {
    var kept := Kept(checks, profile, group);
    if kept == [] { return NothingSelected; }
    var names := Names(kept);
    if exists c | c in kept :: exists d | d in c.dependsOn :: d !in names {
      return OmitsDependency;
    }
    return Checks(kept);
  }

  lemma {:induction false} KeptIsDistinct(checks: seq<Check>, profile: Choice, group: Choice)
    requires DistinctNames(checks)
    ensures DistinctNames(Kept(checks, profile, group))
  {
    if checks != [] {
      KeptIsDistinct(checks[1..], profile, group);
      var rest := Kept(checks[1..], profile, group);
      forall c | c in rest ensures c.name != checks[0].name {
        var i :| 0 <= i < |checks[1..]| && checks[1..][i] == c;
        assert checks[i + 1].name != checks[0].name;
      }
    }
  }

  /** The part of `order` that names a selected check. */
  ghost function Restrict(order: seq<string>, names: set<string>): (r: seq<string>)
    ensures forall n :: n in r <==> n in order && n in names
  {
    if order == [] then [] else
      (if order[0] in names then [order[0]] else []) + Restrict(order[1..], names)
  }

  lemma {:induction false} RestrictAppends(order: seq<string>, n: string, names: set<string>)
    ensures Restrict(order + [n], names) == Restrict(order, names) + (if n in names then [n] else [])
  {
    var more := order + [n];
    if order == [] {
      assert more == [n] && more[1..] == [];
    } else {
      assert more[0] == order[0] && more[1..] == order[1..] + [n];
      RestrictAppends(order[1..], n, names);
      var first, tail := if order[0] in names then [order[0]] else [], Restrict(order[1..], names);
      assert Restrict(more, names) == first + Restrict(more[1..], names);
      var last := if n in names then [n] else [];
      assert first + (tail + last) == (first + tail) + last;
    }
  }

  lemma DropLast(g: Graph, init: seq<string>, n: string)
    requires DependenciesFirst(g, init + [n])
    ensures DependenciesFirst(g, init) && n in g
    ensures forall d :: d in g[n] ==> d in init
  {
    var order := init + [n];
    assert order[|init|] == n && order[..|init|] == init;
    forall i | 0 <= i < |init| ensures init[i] in g && forall d | d in g[init[i]] :: d in init[..i] {
      assert order[..i] == init[..i] && order[i] == init[i];
    }
  }

  lemma PartOfGraph(whole: seq<Check>, part: seq<Check>, n: string)
    requires DistinctNames(whole) && DistinctNames(part) && (forall c | c in part :: c in whole)
    requires DependencyClosed(part) && n in Names(part)
    ensures n in GraphOf(whole) && n in GraphOf(part) && GraphOf(part)[n] == GraphOf(whole)[n]
    ensures forall d | d in GraphOf(part)[n] :: d in Names(part)
  {
    var c :| c in part && c.name == n;
  }

  lemma RestrictStep(whole: seq<Check>, part: seq<Check>, init: seq<string>, n: string)
    requires DistinctNames(whole) && DistinctNames(part) && (forall c | c in part :: c in whole)
    requires DependencyClosed(part) && DependenciesFirst(GraphOf(part), Restrict(init, Names(part)))
    requires n in GraphOf(whole) && forall d :: d in GraphOf(whole)[n] ==> d in init
    ensures DependenciesFirst(GraphOf(part), Restrict(init + [n], Names(part)))
  {
    hide DependenciesFirst, DistinctNames, DependencyClosed;
    RestrictAppends(init, n, Names(part));
    if n in Names(part) {
      PartOfGraph(whole, part, n);
      OrderExtends(GraphOf(part), Restrict(init, Names(part)), n);
    } else {
      assert Restrict(init + [n], Names(part)) == Restrict(init, Names(part));
    }
  }

  lemma RestrictNothing(part: seq<Check>)
    requires DistinctNames(part)
    ensures DependenciesFirst(GraphOf(part), Restrict([], Names(part)))
  {}

  lemma {:induction false} RestrictKeepsOrder(whole: seq<Check>, part: seq<Check>, order: seq<string>)
    requires DistinctNames(whole) && DistinctNames(part) && (forall c | c in part :: c in whole)
    requires DependencyClosed(part) && DependenciesFirst(GraphOf(whole), order)
    ensures DependenciesFirst(GraphOf(part), Restrict(order, Names(part)))
    decreases |order|
  {
    hide *;
    if order == [] {
      RestrictNothing(part);
    } else {
      var init, n := order[..|order| - 1], order[|order| - 1];
      assert order == init + [n];
      DropLast(GraphOf(whole), init, n);
      RestrictKeepsOrder(whole, part, init);
      RestrictStep(whole, part, init, n);
    }
  }

  /** A dependency-closed selection of an acyclic configuration is acyclic. */
  lemma SelectionIsAcyclic(whole: seq<Check>, part: seq<Check>)
    requires DistinctNames(whole) && DistinctNames(part) && (forall c | c in part :: c in whole)
    requires DependencyClosed(part) && Acyclic(GraphOf(whole))
    ensures Acyclic(GraphOf(part))
  {
    var order :| TopologicalOrder(GraphOf(whole), order);
    RestrictKeepsOrder(whole, part, order);
    forall n | n in GraphOf(part) ensures n in Restrict(order, Names(part)) {
      var c :| c in part && c.name == n;
      assert n in GraphOf(whole);
    }
    assert TopologicalOrder(GraphOf(part), Restrict(order, Names(part)));
  }

  lemma WellFormedIsDistinct(plan: Plan)
    requires WellFormed(plan)
    ensures DistinctNames(plan.checks)
  {}

  /** A part of the checks, with the same executor. */
  ghost predicate PartOf(part: Plan, whole: Plan) {
    && WellFormed(whole) && WellFormed(part) && whole.execute == part.execute
    && forall c | c in part.checks :: c in whole.checks
  }

  /** Running a selection gives each selected check the verdict a run of the whole configuration gives it. */
  lemma {:induction false} SelectionKeepsVerdict(whole: Plan, part: Plan, name: string)
    requires PartOf(part, whole) && name in Names(part.checks)
    ensures name in Names(whole.checks) && VerdictOf(part, name) == VerdictOf(whole, name)
    decreases RankOf(part, name), 1, 0
  {
    hide AllSettled, UnmetVerdicts, WellFormed;
    assert DistinctNames(whole.checks) by { WellFormedIsDistinct(whole); }
    SameNameSameCheck(whole.checks, CheckNamed(part.checks, name), CheckNamed(whole.checks, name));
    DependenciesKeepVerdict(whole, part, name, 0);
  }

  lemma {:induction false} DependenciesKeepVerdict(whole: Plan, part: Plan, name: string, from: nat)
    requires PartOf(part, whole) && name in Names(part.checks) && name in Names(whole.checks)
    requires CheckNamed(part.checks, name) == CheckNamed(whole.checks, name)
    requires from <= |CheckNamed(part.checks, name).dependsOn|
    ensures AllSettled(part, name, from) == AllSettled(whole, name, from)
    ensures UnmetVerdicts(part, name, from) == UnmetVerdicts(whole, name, from)
    decreases RankOf(part, name), 0, |CheckNamed(part.checks, name).dependsOn| - from
  {
    var deps := CheckNamed(part.checks, name).dependsOn;
    hide *;
    SettledStep(part, name, from);
    SettledStep(whole, name, from);
    if from < |deps| {
      RankFalls(part, name, deps[from]);
      SelectionKeepsVerdict(whole, part, deps[from]);
      DependenciesKeepVerdict(whole, part, name, from + 1);
    }
  }
}
