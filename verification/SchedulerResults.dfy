/** What the results of a run say about each other and about the executor, in plain terms. */
module SchedulerResults {
  import opened Basics
  import opened HealthChecks
  import opened Dependencies
  import opened SchedulerSpec

  /** The check of that name has the result PASS. */
  ghost predicate Passed(checks: seq<Check>, results: seq<CheckResult>, name: string)
    requires |checks| == |results|
  {
    exists j :: 0 <= j < |checks| && checks[j].name == name && results[j].status == Pass
  }

  ghost function NotPassed(checks: seq<Check>, results: seq<CheckResult>): string -> bool
    requires |checks| == |results|
  {
    d => !Passed(checks, results, d)
  }

  ghost predicate AllPassed(checks: seq<Check>, results: seq<CheckResult>, c: Check)
    requires |checks| == |results|
  {
    forall d | d in c.dependsOn :: Passed(checks, results, d)
  }

  /** The result of a check that was run: the executor's own answer, or an ERROR for an exception. */
  predicate RunResult(execute: Check -> Delivery, c: Check, r: CheckResult) {
    match execute(c)
    case Answer(a) => r == a
    case Raised(evidence) => r == CheckResult(c.name, c.kind, Error, c.target, evidence, 1)
    case Unusable => false
  }

  /** The result of a check that was not run: SKIPPED, naming the dependencies that did not pass, in order. */
  ghost predicate SkipResult(checks: seq<Check>, results: seq<CheckResult>, c: Check, r: CheckResult)
    requires |checks| == |results|
  {
    && r.status == Skipped && r.target == c.target && r.attempts == 0
    && exists unmet :: Filters(unmet, c.dependsOn, NotPassed(checks, results)) &&
         r.evidence == "dependency did not pass: " + Join(unmet, ", ")
  }

  ghost predicate ExplainedAt(execute: Check -> Delivery, checks: seq<Check>, results: seq<CheckResult>, i: nat)
    requires i < |checks| == |results|
  {
    && results[i].name == checks[i].name && results[i].kind == checks[i].kind && !results[i].status.Other?
    && if AllPassed(checks, results, checks[i]) then RunResult(execute, checks[i], results[i])
       else SkipResult(checks, results, checks[i], results[i])
  }

  /** A check is skipped exactly when some dependency did not pass, and otherwise has its executor's result. */
  ghost predicate Explained(execute: Check -> Delivery, checks: seq<Check>, results: seq<CheckResult>) {
    |checks| == |results| && forall i | 0 <= i < |checks| :: ExplainedAt(execute, checks, results, i)
  }

  /** No executor answer is refused. */
  ghost predicate AnswersAreValid(execute: Check -> Delivery, checks: seq<Check>) {
    forall c | c in checks ::
      && !execute(c).Unusable?
      && (execute(c).Answer? ==>
            && execute(c).result.name == c.name && execute(c).result.kind == c.kind
            && !execute(c).result.status.Other?)
  }

  /** Every check has the result that is its verdict. */
  ghost predicate AreVerdicts(plan: Plan, results: seq<CheckResult>)
    requires WellFormed(plan)
  {
    && |results| == |plan.checks|
    && forall i | 0 <= i < |plan.checks| :: VerdictOf(plan, plan.checks[i].name) == Settled(results[i])
  }

  lemma PassedIsVerdict(plan: Plan, results: seq<CheckResult>, name: string)
    requires WellFormed(plan) && AreVerdicts(plan, results) && name in Names(plan.checks)
    ensures VerdictOf(plan, name).Settled?
    ensures Passed(plan.checks, results, name) <==> VerdictOf(plan, name).result.status == Pass
  {
    hide VerdictOf, Acyclic, GraphOf;
    var c :| c in plan.checks && c.name == name;
    var j :| 0 <= j < |plan.checks| && plan.checks[j] == c;
    assert VerdictOf(plan, plan.checks[j].name) == Settled(results[j]);
    if k :| 0 <= k < |plan.checks| && plan.checks[k].name == name && results[k].status == Pass {
      assert VerdictOf(plan, plan.checks[k].name) == Settled(results[k]);
    }
  }

  lemma NotPassedIs(checks: seq<Check>, results: seq<CheckResult>, d: string)
    requires |checks| == |results|
    ensures NotPassed(checks, results)(d) <==> !Passed(checks, results, d)
  {}

  lemma UnmetStep(plan: Plan, results: seq<CheckResult>, name: string, from: nat)
    requires WellFormed(plan) && AreVerdicts(plan, results) && name in Names(plan.checks)
    requires from < |CheckNamed(plan.checks, name).dependsOn|
    ensures
      var d := CheckNamed(plan.checks, name).dependsOn[from];
      UnmetVerdicts(plan, name, from) ==
        (if NotPassed(plan.checks, results)(d) then [d] else []) + UnmetVerdicts(plan, name, from + 1)
  {
    SettledStep(plan, name, from);
    hide *;
    var d := CheckNamed(plan.checks, name).dependsOn[from];
    PassedIsVerdict(plan, results, d);
    NotPassedIs(plan.checks, results, d);
  }

  ghost predicate UnmetFrom(plan: Plan, results: seq<CheckResult>, name: string, from: nat)
    requires WellFormed(plan) && |results| == |plan.checks| && name in Names(plan.checks)
    requires from <= |CheckNamed(plan.checks, name).dependsOn|
  {
    Filters(UnmetVerdicts(plan, name, from), CheckNamed(plan.checks, name).dependsOn[from..],
            NotPassed(plan.checks, results))
  }

  lemma UnmetFromOne(plan: Plan, results: seq<CheckResult>, name: string, from: nat)
    requires WellFormed(plan) && AreVerdicts(plan, results) && name in Names(plan.checks)
    requires from < |CheckNamed(plan.checks, name).dependsOn| && UnmetFrom(plan, results, name, from + 1)
    ensures UnmetFrom(plan, results, name, from)
  {
    UnmetStep(plan, results, name, from);
    FiltersFrom(UnmetVerdicts(plan, name, from + 1), CheckNamed(plan.checks, name).dependsOn,
                NotPassed(plan.checks, results), from);
    hide NotPassed, Filters, WellFormed, AreVerdicts, CheckNamed, UnmetVerdicts;
  }

  lemma UnmetFromEnd(plan: Plan, results: seq<CheckResult>, name: string)
    requires WellFormed(plan) && |results| == |plan.checks| && name in Names(plan.checks)
    ensures UnmetFrom(plan, results, name, |CheckNamed(plan.checks, name).dependsOn|)
  {
    var deps := CheckNamed(plan.checks, name).dependsOn;
    SettledStep(plan, name, |deps|);
    FiltersNothing(NotPassed(plan.checks, results));
    assert deps[|deps|..] == [];
    hide NotPassed, Filters, WellFormed, CheckNamed, UnmetVerdicts;
  }

  lemma {:induction false} UnmetIsFilter(plan: Plan, results: seq<CheckResult>, name: string, from: nat)
    requires WellFormed(plan) && AreVerdicts(plan, results) && name in Names(plan.checks)
    requires from <= |CheckNamed(plan.checks, name).dependsOn|
    ensures UnmetFrom(plan, results, name, from)
    decreases |CheckNamed(plan.checks, name).dependsOn| - from
  {
    hide UnmetFrom, WellFormed, CheckNamed, VerdictOf;
    if from == |CheckNamed(plan.checks, name).dependsOn| {
      UnmetFromEnd(plan, results, name);
    } else {
      UnmetIsFilter(plan, results, name, from + 1);
      UnmetFromOne(plan, results, name, from);
    }
  }

  /** One unfolding of a verdict. */
  lemma VerdictStep(plan: Plan, name: string)
    requires WellFormed(plan) && name in Names(plan.checks) && VerdictOf(plan, name).Settled?
    ensures
      var c, unmet, r := CheckNamed(plan.checks, name), UnmetVerdicts(plan, name, 0), VerdictOf(plan, name).result;
      && r.name == c.name && r.kind == c.kind && !r.status.Other?
      && (unmet == [] ==> RunResult(plan.execute, c, r))
      && (unmet != [] ==>
            && r.status == Skipped && r.target == c.target && r.attempts == 0
            && r.evidence == "dependency did not pass: " + Join(unmet, ", "))
  {
    hide Join, WellFormed, UnmetVerdicts, AllSettled, CheckNamed;
  }

  lemma VerdictsExplain(plan: Plan, results: seq<CheckResult>, i: nat)
    requires WellFormed(plan) && AreVerdicts(plan, results) && i < |plan.checks|
    ensures ExplainedAt(plan.execute, plan.checks, results, i)
  {
    var c := plan.checks[i];
    assert c.name in Names(plan.checks);
    SameNameSameCheck(plan.checks, c, CheckNamed(plan.checks, c.name));
    VerdictStep(plan, c.name);
    UnmetIsFilter(plan, results, c.name, 0);
    assert c.dependsOn[0..] == c.dependsOn;
    var unmet := UnmetVerdicts(plan, c.name, 0);
    forall d ensures d in unmet <==> d in c.dependsOn && !Passed(plan.checks, results, d) {
      FiltersMembers(unmet, c.dependsOn, NotPassed(plan.checks, results), d);
    }
    hide VerdictOf, WellFormed, UnmetVerdicts, CheckNamed, Filters, Passed, RunResult, Join;
    if unmet != [] { assert unmet[0] in unmet; }
  }

  /** The expected outcome in plain terms. */
  lemma ExpectedIsExplained(plan: Plan, outcome: Outcome)
    requires WellFormed(plan) && Expected(plan, outcome)
    ensures outcome.Results? ==> Explained(plan.execute, plan.checks, outcome.results)
    ensures AnswersAreValid(plan.execute, plan.checks) ==> outcome.Results?
  {
    hide WellFormed, VerdictOf, ExplainedAt;
    if outcome.Results? {
      assert AreVerdicts(plan, outcome.results);
      forall i | 0 <= i < |plan.checks| ensures ExplainedAt(plan.execute, plan.checks, outcome.results, i) {
        VerdictsExplain(plan, outcome.results, i);
      }
    }
    if AnswersAreValid(plan.execute, plan.checks) {
      forall c | c in plan.checks ensures VerdictOf(plan, c.name).Settled? { ValidAnswersSettle(plan, c.name); }
    }
  }

  /** A refused answer of a check that was started makes the invalid result the expected outcome. */
  lemma RefusedAnswerStops(plan: Plan, completed: map<string, CheckResult>, c: Check)
    requires WellFormed(plan) && Justified(plan, completed)
    requires c in plan.checks && Ready(c, completed) && Unmet(c.dependsOn, completed) == []
    requires Collect(plan, c).Rejected?
    ensures Expected(plan, InvalidResult) && !AnswersAreValid(plan.execute, plan.checks)
  {
    RejectedMeansUnsettled(plan, completed, c);
    hide VerdictOf, WellFormed, Justified;
    assert VerdictOf(plan, c.name).Unsettled?;
  }

  /** A result other than PASS skips everything that depends on it, and a PASS is the executor's own answer. */
  lemma SkipsFollow(execute: Check -> Delivery, checks: seq<Check>, results: seq<CheckResult>, i: nat, j: nat)
    requires DistinctNames(checks) && Explained(execute, checks, results) && i < |checks| && j < |checks|
    ensures checks[j].name in checks[i].dependsOn && results[j].status != Pass ==> results[i].status == Skipped
    ensures results[i].status == Pass ==> execute(checks[i]) == Answer(results[i])
    ensures results[i].status == Pass && checks[j].name in checks[i].dependsOn ==> results[j].status == Pass
  {
    assert ExplainedAt(execute, checks, results, i);
    hide SkipResult;
    if checks[j].name in checks[i].dependsOn && Passed(checks, results, checks[j].name) {
      var k :| 0 <= k < |checks| && checks[k].name == checks[j].name && results[k].status == Pass;
      assert k == j;
    }
  }

  lemma PassedNext(execute: Check -> Delivery, checks: seq<Check>, results: seq<CheckResult>, a: string, b: string)
    requires DistinctNames(checks) && Explained(execute, checks, results)
    requires Edge(GraphOf(checks), a, b) && Passed(checks, results, a)
    ensures Passed(checks, results, b)
  {
    hide GraphOf, SkipResult, RunResult;
    var i :| 0 <= i < |checks| && checks[i].name == a && results[i].status == Pass;
    assert ExplainedAt(execute, checks, results, i);
    assert !SkipResult(checks, results, checks[i], results[i]) by { NoSkip(checks, results, checks[i], results[i]); }
    DependencyOf(checks, i, b);
  }

  lemma NoSkip(checks: seq<Check>, results: seq<CheckResult>, c: Check, r: CheckResult)
    requires |checks| == |results|
    ensures SkipResult(checks, results, c, r) ==> r.status == Skipped
  {}

  /** What passed passed together with everything it depends on, directly or not. */
  lemma {:induction false} PassedAlongWalk(execute: Check -> Delivery, checks: seq<Check>, results: seq<CheckResult>,
                                           walk: seq<string>)
    requires DistinctNames(checks) && Explained(execute, checks, results)
    requires walk != [] && IsWalk(GraphOf(checks), walk) && Passed(checks, results, walk[0])
    ensures forall n | n in walk :: Passed(checks, results, n)
  {
    assert walk == [walk[0]] + walk[1..];
    if |walk| > 1 {
      assert Edge(GraphOf(checks), walk[0], walk[1]);
      PassedNext(execute, checks, results, walk[0], walk[1]);
      WalkTail(GraphOf(checks), walk);
      hide *;
      PassedAlongWalk(execute, checks, results, walk[1..]);
    }
  }

  lemma WalkTail(g: Graph, walk: seq<string>)
    requires |walk| > 1 && IsWalk(g, walk)
    ensures IsWalk(g, walk[1..])
  {
    forall k | 0 <= k < |walk| - 2 ensures Edge(g, walk[1..][k], walk[1..][k + 1]) {
      assert Edge(g, walk[k + 1], walk[k + 2]);
    }
  }

  /** The edges of the graph are the dependencies of the checks. */
  lemma DependencyOf(checks: seq<Check>, i: nat, d: string)
    requires DistinctNames(checks) && i < |checks|
    ensures Edge(GraphOf(checks), checks[i].name, d) <==> d in checks[i].dependsOn
  {
    assert checks[i] in checks;
    var g := GraphOf(checks);
    assert checks[i].name in g;
  }
}
