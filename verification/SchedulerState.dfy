/** The scheduler's states, its three atomic steps, and the safety invariant every step keeps. */
module SchedulerState {
  import opened Basics
  import opened HealthChecks
  import opened Dependencies
  import opened SchedulerSpec

  /** `list.remove`: drops the first occurrence. */
  function Without<T(==)>(s: seq<T>, x: T): seq<T>
    requires x in s
  {
    if s[0] == x then s[1..] else [s[0]] + Without(s[1..], x)
  }

  lemma {:induction false} WithoutIsRemoval<T>(s: seq<T>, x: T)
    requires Distinct(s) && x in s
    ensures |Without(s, x)| == |s| - 1 && Distinct(Without(s, x))
    ensures forall y :: y in Without(s, x) <==> y in s && y != x
  {
    assert s == [s[0]] + s[1..];
    if s[0] == x {
    } else {
      WithoutIsRemoval(s[1..], x);
      var w := Without(s[1..], x);
      forall i, j | 0 <= i < j < |[s[0]] + w| ensures ([s[0]] + w)[i] != ([s[0]] + w)[j] {
        if i == 0 {
          assert w[j - 1] in w;
        }
      }
    }
  }

  /**
   * `waiting` and `completed` are the source's variables, `inFlight` the started threads whose result was not
   * taken yet, `launched` every executor call made so far and `order` the order of completion.
   */
  datatype State = State(
    waiting: seq<Check>,
    inFlight: seq<Check>,
    completed: map<string, CheckResult>,
    launched: seq<Check>,
    order: seq<string>)

  function Initial(checks: seq<Check>): State {
    State(checks, [], map[], [], [])
  }

  predicate CanSkip(s: State, c: Check) {
    c in s.waiting && Ready(c, s.completed) && Unmet(c.dependsOn, s.completed) != []
  }

  function AfterSkip(s: State, c: Check): State
    requires CanSkip(s, c)
  {
    s.(waiting := Without(s.waiting, c),
       completed := s.completed[c.name := SkippedResult(c, Unmet(c.dependsOn, s.completed))],
       order := s.order + [c.name])
  }

  predicate CanStart(s: State, c: Check, maxWorkers: nat) {
    c in s.waiting && Ready(c, s.completed) && Unmet(c.dependsOn, s.completed) == [] && |s.inFlight| < maxWorkers
  }

  function AfterStart(s: State, c: Check): State
    requires c in s.waiting
  {
    s.(waiting := Without(s.waiting, c), inFlight := s.inFlight + [c], launched := s.launched + [c])
  }

  predicate CanFinish(s: State, plan: Plan, c: Check) {
    c in s.inFlight && Collect(plan, c).Recorded?
  }

  function AfterFinish(s: State, plan: Plan, c: Check): State
    requires CanFinish(s, plan, c)
  {
    s.(inFlight := Without(s.inFlight, c),
       completed := s.completed[c.name := Collect(plan, c).result],
       order := s.order + [c.name])
  }

  // ----- the invariant

  /** Exactly one of `waiting`, in flight and completed holds of each configured check. */
  predicate InOnePlace(s: State, c: Check) {
    && (c in s.waiting || c in s.inFlight || c.name in s.completed)
    && !(c in s.waiting && c in s.inFlight)
    && !(c.name in s.completed && (c in s.waiting || c in s.inFlight))
  }

  ghost predicate Partitioned(checks: seq<Check>, s: State) {
    && Distinct(s.waiting) && Distinct(s.inFlight)
    && (forall c | c in s.waiting :: c in checks)
    && (forall c | c in s.inFlight :: c in checks)
    && s.completed.Keys <= Names(checks)
    && (forall c | c in checks :: InOnePlace(s, c))
  }

  /** Only checks whose dependencies all completed with PASS are in flight. */
  ghost predicate StartsAreSafe(s: State) {
    forall c | c in s.inFlight :: Ready(c, s.completed) && Unmet(c.dependsOn, s.completed) == []
  }

  predicate WasExecuted(s: State, c: Check) {
    c in s.inFlight || (c.name in s.completed && Ready(c, s.completed) && Unmet(c.dependsOn, s.completed) == [])
  }

  /** One executor call for each check in flight or executed, none for a waiting or skipped one. */
  ghost predicate LaunchedOnce(checks: seq<Check>, s: State) {
    && Distinct(s.launched)
    && (forall c | c in s.launched :: c in checks)
    && (forall c | c in checks :: c in s.launched <==> WasExecuted(s, c))
  }

  ghost predicate OrderedByCompletion(checks: seq<Check>, s: State)
    requires DistinctNames(checks)
  {
    && DependenciesFirst(GraphOf(checks), s.order)
    && (forall n :: n in s.order <==> n in s.completed)
  }

  ghost predicate Safe(plan: Plan, s: State, maxWorkers: nat) {
    && DistinctNames(plan.checks)
    && |s.inFlight| <= maxWorkers
    && Partitioned(plan.checks, s)
    && StartsAreSafe(s)
    && LaunchedOnce(plan.checks, s)
    && Justified(plan, s.completed)
    && OrderedByCompletion(plan.checks, s)
  }

  lemma InitialIsSafe(plan: Plan, maxWorkers: nat)
    requires DistinctNames(plan.checks)
    ensures Safe(plan, Initial(plan.checks), maxWorkers)
  {
    var s := Initial(plan.checks);
    assert forall i, j :: 0 <= i < j < |plan.checks| ==> plan.checks[i].name != plan.checks[j].name;
    assert Distinct(s.waiting);
  }

  // ----- each step keeps it

  lemma FrameUnmet(before: map<string, CheckResult>, n: string, r: CheckResult)
    requires n !in before
    ensures forall c: Check | Ready(c, before) ::
      Ready(c, before[n := r]) && Unmet(c.dependsOn, before) == Unmet(c.dependsOn, before[n := r])
  {
    forall c: Check | Ready(c, before)
      ensures Ready(c, before[n := r]) && Unmet(c.dependsOn, before) == Unmet(c.dependsOn, before[n := r])
    {
      UnmetFrame(c.dependsOn, before, before[n := r]);
    }
  }

  /** `OrderedByCompletion` when `c` completes. */
  lemma OrderGrows(checks: seq<Check>, s: State, t: State, c: Check)
    requires DistinctNames(checks) && c in checks && Ready(c, s.completed) && OrderedByCompletion(checks, s)
    requires t.completed.Keys == s.completed.Keys + {c.name} && t.order == s.order + [c.name]
    ensures OrderedByCompletion(checks, t)
  {
    OrderExtends(GraphOf(checks), s.order, c.name);
  }

  lemma NameIsIdentity(checks: seq<Check>, c: Check)
    requires DistinctNames(checks) && c in checks
    ensures forall x | x in checks && x.name == c.name :: x == c
  {
    forall x | x in checks && x.name == c.name ensures x == c {
      SameNameSameCheck(checks, x, c);
    }
  }

  lemma SkipPartition(checks: seq<Check>, s: State, c: Check)
    requires DistinctNames(checks) && Partitioned(checks, s) && CanSkip(s, c)
    ensures Partitioned(checks, AfterSkip(s, c))
  {
    var t := AfterSkip(s, c);
    WithoutIsRemoval(s.waiting, c);
    NameIsIdentity(checks, c);
    forall x | x in checks ensures InOnePlace(t, x) {
      assert InOnePlace(s, x) && InOnePlace(s, c);
    }
  }

  /** Completing `c` decides `WasExecuted` for `c` alone. */
  lemma ExecutedFrame(checks: seq<Check>, s: State, c: Check, r: CheckResult, x: Check)
    requires DistinctNames(checks) && Justified'(checks, s.completed)
    requires c in checks && x in checks && x != c && c.name !in s.completed
    ensures x.name in s.completed && Ready(x, s.completed) && Unmet(x.dependsOn, s.completed) == [] <==>
            x.name in s.completed[c.name := r] && Ready(x, s.completed[c.name := r]) &&
              Unmet(x.dependsOn, s.completed[c.name := r]) == []
  {
    NameIsIdentity(checks, c);
    if x.name in s.completed {
      FrameUnmet(s.completed, c.name, r);
    }
  }

  /** The part of `Justified` that concerns readiness only. */
  ghost predicate Justified'(checks: seq<Check>, completed: map<string, CheckResult>) {
    forall c | c in checks && c.name in completed :: Ready(c, completed)
  }

  lemma CompletedAreReady(plan: Plan, completed: map<string, CheckResult>)
    requires Justified(plan, completed)
    ensures Justified'(plan.checks, completed)
  {
    forall c | c in plan.checks && c.name in completed ensures Ready(c, completed) {
      assert Follows(plan, c, completed);
    }
  }

  lemma SkipLaunches(checks: seq<Check>, s: State, c: Check)
    requires DistinctNames(checks) && Partitioned(checks, s) && LaunchedOnce(checks, s) &&
      Justified'(checks, s.completed)
    requires CanSkip(s, c)
    ensures LaunchedOnce(checks, AfterSkip(s, c))
  {
    var t := AfterSkip(s, c);
    assert InOnePlace(s, c);
    FrameUnmet(s.completed, c.name, t.completed[c.name]);
    forall x | x in checks ensures x in t.launched <==> WasExecuted(t, x) {
      if x != c { ExecutedFrame(checks, s, c, t.completed[c.name], x); }
    }
  }

  lemma SkipIsSafe(plan: Plan, s: State, c: Check, maxWorkers: nat)
    requires Safe(plan, s, maxWorkers) && CanSkip(s, c)
    ensures Safe(plan, AfterSkip(s, c), maxWorkers)
    ensures |AfterSkip(s, c).waiting| == |s.waiting| - 1
  {
    var t := AfterSkip(s, c);
    assert InOnePlace(s, c);
    SkipPartition(plan.checks, s, c);
    CompletedAreReady(plan, s.completed);
    SkipLaunches(plan.checks, s, c);
    JustifiedGrows(plan, s.completed, c, t.completed[c.name]);
    OrderGrows(plan.checks, s, t, c);
    FrameUnmet(s.completed, c.name, t.completed[c.name]);
    WithoutIsRemoval(s.waiting, c);
  }

  lemma StartPartition(checks: seq<Check>, s: State, c: Check)
    requires Partitioned(checks, s) && c in s.waiting
    ensures Partitioned(checks, AfterStart(s, c))
  {
    var t := AfterStart(s, c);
    assert InOnePlace(s, c);
    WithoutIsRemoval(s.waiting, c);
    forall x | x in checks ensures InOnePlace(t, x) {
      assert InOnePlace(s, x);
    }
  }

  lemma StartLaunches(checks: seq<Check>, s: State, c: Check)
    requires Partitioned(checks, s) && LaunchedOnce(checks, s) && c in s.waiting
    ensures LaunchedOnce(checks, AfterStart(s, c))
  {
    var t := AfterStart(s, c);
    hide Ready, Unmet;
    assert InOnePlace(s, c) && !WasExecuted(s, c);
    forall x | x in checks ensures x in t.launched <==> WasExecuted(t, x) {}
  }

  lemma StartIsSafe(plan: Plan, s: State, c: Check, maxWorkers: nat)
    requires Safe(plan, s, maxWorkers) && CanStart(s, c, maxWorkers)
    ensures Safe(plan, AfterStart(s, c), maxWorkers)
    ensures |AfterStart(s, c).waiting| == |s.waiting| - 1
  {
    hide Partitioned, LaunchedOnce, Justified, OrderedByCompletion, DistinctNames, Ready, Unmet;
    assert Distinct(s.waiting) by { PartitionIsDistinct(plan.checks, s); }
    StartPartition(plan.checks, s, c);
    StartLaunches(plan.checks, s, c);
    WithoutIsRemoval(s.waiting, c);
    SameCompletion(plan.checks, s, AfterStart(s, c));
  }

  lemma PartitionIsDistinct(checks: seq<Check>, s: State)
    requires Partitioned(checks, s)
    ensures Distinct(s.waiting)
  {}

  lemma SameCompletion(checks: seq<Check>, s: State, t: State)
    requires DistinctNames(checks) && OrderedByCompletion(checks, s) && t.completed == s.completed && t.order == s.order
    ensures OrderedByCompletion(checks, t)
  {}

  lemma FinishPartition(plan: Plan, s: State, c: Check)
    requires DistinctNames(plan.checks) && Partitioned(plan.checks, s) && CanFinish(s, plan, c)
    ensures Partitioned(plan.checks, AfterFinish(s, plan, c))
  {
    var t := AfterFinish(s, plan, c);
    WithoutIsRemoval(s.inFlight, c);
    NameIsIdentity(plan.checks, c);
    forall x | x in plan.checks ensures InOnePlace(t, x) {
      assert InOnePlace(s, x) && InOnePlace(s, c);
    }
  }

  lemma FinishLaunches(plan: Plan, s: State, c: Check)
    requires DistinctNames(plan.checks) && Partitioned(plan.checks, s) && LaunchedOnce(plan.checks, s)
    requires Justified'(plan.checks, s.completed) && StartsAreSafe(s) && CanFinish(s, plan, c)
    ensures LaunchedOnce(plan.checks, AfterFinish(s, plan, c))
  {
    var t := AfterFinish(s, plan, c);
    assert InOnePlace(s, c);
    WithoutIsRemoval(s.inFlight, c);
    FrameUnmet(s.completed, c.name, t.completed[c.name]);
    forall x | x in plan.checks ensures x in t.launched <==> WasExecuted(t, x) {
      if x != c { ExecutedFrame(plan.checks, s, c, t.completed[c.name], x); }
    }
  }

  lemma FinishIsSafe(plan: Plan, s: State, c: Check, maxWorkers: nat)
    requires Safe(plan, s, maxWorkers) && CanFinish(s, plan, c)
    ensures Safe(plan, AfterFinish(s, plan, c), maxWorkers)
    ensures |AfterFinish(s, plan, c).inFlight| == |s.inFlight| - 1
  {
    var t := AfterFinish(s, plan, c);
    assert InOnePlace(s, c);
    FinishPartition(plan, s, c);
    CompletedAreReady(plan, s.completed);
    FinishLaunches(plan, s, c);
    JustifiedGrows(plan, s.completed, c, t.completed[c.name]);
    OrderGrows(plan.checks, s, t, c);
    FrameUnmet(s.completed, c.name, t.completed[c.name]);
    WithoutIsRemoval(s.inFlight, c);
  }

  // ----- what the invariant gives at the end of a run

  /** The dispatch loop can do nothing with `c`: a dependency is missing, or the worker cap is reached. */
  predicate Blocked(s: State, c: Check, maxWorkers: nat) {
    !CanSkip(s, c) && !CanStart(s, c, maxWorkers)
  }

  /** Nothing in flight and everything still waiting blocked: the dependencies are not well founded. */
  lemma StuckMeansNotAcyclic(plan: Plan, s: State, maxWorkers: nat)
    requires Safe(plan, s, maxWorkers) && maxWorkers >= 1 && s.inFlight == [] && s.waiting != []
    requires forall c | c in s.waiting :: Blocked(s, c, maxWorkers)
    ensures !Acyclic(GraphOf(plan.checks))
  {
    if Acyclic(GraphOf(plan.checks)) {
      var topological :| TopologicalOrder(GraphOf(plan.checks), topological);
      assert s.waiting[0].name in GraphOf(plan.checks);
      Descend(plan, s, maxWorkers, topological, s.waiting[0]);
    }
  }

  lemma {:induction false} Descend(plan: Plan, s: State, maxWorkers: nat, topological: seq<string>, c: Check)
    requires Safe(plan, s, maxWorkers) && maxWorkers >= 1 && s.inFlight == [] && c in s.waiting
    requires forall x | x in s.waiting :: Blocked(s, x, maxWorkers)
    requires TopologicalOrder(GraphOf(plan.checks), topological) && c.name in topological
    ensures false
    decreases Rank(topological, c.name)
  {
    var g := GraphOf(plan.checks);
    assert Blocked(s, c, maxWorkers);
    var d :| d in c.dependsOn && d !in s.completed;
    assert Edge(g, c.name, d);
    RankDecreases(g, topological, c.name, d);
    assert d in g by { assert topological[Rank(topological, d)] in g; }
    var x :| x in plan.checks && x.name == d;
    assert InOnePlace(s, x);
    Descend(plan, s, maxWorkers, topological, x);
  }

  lemma FinishedMeansExpected(plan: Plan, s: State, maxWorkers: nat, outcome: Outcome)
    requires Safe(plan, s, maxWorkers) && s.waiting == [] && s.inFlight == []
    requires outcome.Results? && |outcome.results| == |plan.checks|
    requires forall i | 0 <= i < |plan.checks| ::
      plan.checks[i].name in s.completed && outcome.results[i] == s.completed[plan.checks[i].name]
    ensures WellFormed(plan) && Expected(plan, outcome)
  {
    assert TopologicalOrder(GraphOf(plan.checks), s.order) by {
      forall n | n in GraphOf(plan.checks) ensures n in s.order {
        var c :| c in plan.checks && c.name == n;
        assert InOnePlace(s, c);
      }
    }
    forall c | c in plan.checks ensures VerdictOf(plan, c.name) == Settled(s.completed[c.name]) {
      assert InOnePlace(s, c);
      JustifiedMeansVerdict(plan, s.completed, c.name);
    }
  }
}
