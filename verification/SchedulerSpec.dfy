/** What one HealthCtl run means: a recursive verdict for every check, independent of timing. */
module SchedulerSpec {
  import opened HealthChecks
  import opened Dependencies

  /** How one executor call ends. `Unusable` is any answer that is not a CheckResult at all. */
  datatype Delivery = Answer(result: CheckResult) | Raised(evidence: string) | Unusable

  /** The checks of one run and the executor, a function of the check. */
  datatype Plan = Plan(checks: seq<Check>, execute: Check -> Delivery)

  datatype Collected = Recorded(result: CheckResult) | Rejected

  /** `work` followed by the validation of the collected result: an exception becomes an ERROR result. */
  function Collect(plan: Plan, c: Check): Collected {
    match plan.execute(c)
    case Raised(evidence) => Recorded(CheckResult(c.name, c.kind, Error, c.target, evidence, 1))
    case Unusable => Rejected
    case Answer(r) => if r.name == c.name && r.kind == c.kind && !r.status.Other? then Recorded(r) else Rejected
  }

  function SkippedResult(c: Check, unmet: seq<string>): CheckResult {
    CheckResult(c.name, c.kind, Skipped, c.target, "dependency did not pass: " + Join(unmet, ", "), 0)
  }

  // ----- the recursive specification

  datatype Verdict = Settled(result: CheckResult) | Unsettled

  ghost predicate WellFormed(plan: Plan) {
    DistinctNames(plan.checks) && Acyclic(GraphOf(plan.checks))
  }

  ghost function Order(plan: Plan): (order: seq<string>)
    requires WellFormed(plan)
    ensures TopologicalOrder(GraphOf(plan.checks), order)
  {
    var order :| TopologicalOrder(GraphOf(plan.checks), order);
    order
  }

  function CheckNamed(checks: seq<Check>, name: string): (c: Check)
    requires name in Names(checks)
    ensures c in checks && c.name == name
  {
    if checks[0].name == name then checks[0] else CheckNamed(checks[1..], name)
  }

  lemma DependencyIsEarlier(plan: Plan, name: string, d: string)
    requires WellFormed(plan) && name in Names(plan.checks)
    requires d in CheckNamed(plan.checks, name).dependsOn
    ensures d in Names(plan.checks) && name in Order(plan) && d in Order(plan)
    ensures Rank(Order(plan), d) < Rank(Order(plan), name)
  {
    var g := GraphOf(plan.checks);
    assert Edge(g, name, d);
    RankDecreases(g, Order(plan), name, d);
    assert d in g by { assert Order(plan)[Rank(Order(plan), d)] in g; }
  }

  ghost function RankOf(plan: Plan, name: string): nat
    requires WellFormed(plan) && name in Names(plan.checks)
  {
    assert name in GraphOf(plan.checks);
    Rank(Order(plan), name)
  }

  lemma RankFalls(plan: Plan, name: string, d: string)
    requires WellFormed(plan) && name in Names(plan.checks)
    requires d in CheckNamed(plan.checks, name).dependsOn
    ensures d in Names(plan.checks) && RankOf(plan, d) < RankOf(plan, name)
  {
    DependencyIsEarlier(plan, name, d);
  }

  /** SKIPPED when some dependency's verdict is not PASS, and the executor's validated answer otherwise. */
  ghost function VerdictOf(plan: Plan, name: string): Verdict
    requires WellFormed(plan) && name in Names(plan.checks)
    decreases RankOf(plan, name), 1, 0
  {
    var c := CheckNamed(plan.checks, name);
    if !AllSettled(plan, name, 0) then Unsettled
    else if UnmetVerdicts(plan, name, 0) != [] then Settled(SkippedResult(c, UnmetVerdicts(plan, name, 0)))
    else match Collect(plan, c)
      case Recorded(r) => Settled(r)
      case Rejected => Unsettled
  }

  ghost predicate AllSettled(plan: Plan, name: string, from: nat)
    requires WellFormed(plan) && name in Names(plan.checks)
    requires from <= |CheckNamed(plan.checks, name).dependsOn|
    decreases RankOf(plan, name), 0, |CheckNamed(plan.checks, name).dependsOn| - from
  {
    var deps := CheckNamed(plan.checks, name).dependsOn;
    from == |deps| ||
    (DependencyIsEarlier(plan, name, deps[from]);
     VerdictOf(plan, deps[from]).Settled? && AllSettled(plan, name, from + 1))
  }

  /** The dependencies, in `depends_on` order, whose verdict is a result other than PASS. */
  ghost function UnmetVerdicts(plan: Plan, name: string, from: nat): seq<string>
    requires WellFormed(plan) && name in Names(plan.checks)
    requires from <= |CheckNamed(plan.checks, name).dependsOn|
    decreases RankOf(plan, name), 0, |CheckNamed(plan.checks, name).dependsOn| - from
  {
    var deps := CheckNamed(plan.checks, name).dependsOn;
    if from == |deps| then [] else
      DependencyIsEarlier(plan, name, deps[from]);
      var v := VerdictOf(plan, deps[from]);
      (if v.Settled? && v.result.status != Pass then [deps[from]] else []) + UnmetVerdicts(plan, name, from + 1)
  }

  /** One unfolding of the two recursions over the dependencies. */
  lemma SettledStep(plan: Plan, name: string, from: nat)
    requires WellFormed(plan) && name in Names(plan.checks)
    requires from <= |CheckNamed(plan.checks, name).dependsOn|
    ensures
      var deps := CheckNamed(plan.checks, name).dependsOn;
      if from == |deps| then AllSettled(plan, name, from) && UnmetVerdicts(plan, name, from) == []
      else
        && deps[from] in Names(plan.checks)
        && var v := VerdictOf(plan, deps[from]);
        && (AllSettled(plan, name, from) <==> v.Settled? && AllSettled(plan, name, from + 1))
        && UnmetVerdicts(plan, name, from) ==
             (if v.Settled? && v.result.status != Pass then [deps[from]] else []) + UnmetVerdicts(plan, name, from + 1)
  {
    hide VerdictOf, CheckNamed, WellFormed, Names;
    var deps := CheckNamed(plan.checks, name).dependsOn;
    if from < |deps| { DependencyIsEarlier(plan, name, deps[from]); }
  }

  // ----- the local rule the scheduler applies to the results it already holds

  function Unmet(names: seq<string>, completed: map<string, CheckResult>): seq<string>
    requires forall d | d in names :: d in completed
  {
    if names == [] then []
    else (if completed[names[0]].status != Pass then [names[0]] else []) + Unmet(names[1..], completed)
  }

  lemma {:induction false} UnmetFrame(names: seq<string>, a: map<string, CheckResult>, b: map<string, CheckResult>)
    requires forall d | d in names :: d in a && d in b && a[d] == b[d]
    ensures Unmet(names, a) == Unmet(names, b)
  {
    if names != [] { UnmetFrame(names[1..], a, b); }
  }

  lemma {:induction false} UnmetEmpty(names: seq<string>, completed: map<string, CheckResult>)
    requires forall d | d in names :: d in completed
    ensures Unmet(names, completed) == [] <==> forall d | d in names :: completed[d].status == Pass
  {
    if names != [] { UnmetEmpty(names[1..], completed); }
  }

  predicate Ready(c: Check, completed: map<string, CheckResult>) {
    forall d | d in c.dependsOn :: d in completed
  }

  /** The completed entry of `c` follows from the completed entries of its dependencies. */
  ghost predicate Follows(plan: Plan, c: Check, completed: map<string, CheckResult>) {
    c.name in completed ==>
      && Ready(c, completed)
      && (if Unmet(c.dependsOn, completed) != []
          then completed[c.name] == SkippedResult(c, Unmet(c.dependsOn, completed))
          else Collect(plan, c) == Recorded(completed[c.name]))
  }

  ghost predicate Justified(plan: Plan, completed: map<string, CheckResult>) {
    forall c | c in plan.checks :: Follows(plan, c, completed)
  }

  lemma JustifiedGrows(plan: Plan, completed: map<string, CheckResult>, c: Check, r: CheckResult)
    requires DistinctNames(plan.checks) && c in plan.checks && c.name !in completed
    requires Justified(plan, completed) && Ready(c, completed)
    requires if Unmet(c.dependsOn, completed) != []
             then r == SkippedResult(c, Unmet(c.dependsOn, completed))
             else Collect(plan, c) == Recorded(r)
    ensures Justified(plan, completed[c.name := r])
  {
    var after := completed[c.name := r];
    forall x | x in plan.checks ensures Follows(plan, x, after) {
      if x.name == c.name {
        SameNameSameCheck(plan.checks, x, c);
        UnmetFrame(c.dependsOn, completed, after);
      } else if x.name in completed {
        assert Follows(plan, x, completed);
        UnmetFrame(x.dependsOn, completed, after);
      }
    }
  }

  /** Results justified step by step are the recursive verdicts: the heart of confluence. */
  lemma {:induction false} JustifiedMeansVerdict(plan: Plan, completed: map<string, CheckResult>, name: string)
    requires WellFormed(plan) && Justified(plan, completed)
    requires name in Names(plan.checks) && name in completed
    ensures VerdictOf(plan, name) == Settled(completed[name])
    decreases RankOf(plan, name), 1, 0
  {
    var c := CheckNamed(plan.checks, name);
    assert Follows(plan, c, completed);
    DependenciesAgree(plan, completed, name, 0);
    assert c.dependsOn[0..] == c.dependsOn;
  }

  lemma {:induction false} DependenciesAgree(plan: Plan, completed: map<string, CheckResult>, name: string, from: nat)
    requires WellFormed(plan) && Justified(plan, completed)
    requires name in Names(plan.checks) && Ready(CheckNamed(plan.checks, name), completed)
    requires from <= |CheckNamed(plan.checks, name).dependsOn|
    ensures AllSettled(plan, name, from)
    ensures UnmetVerdicts(plan, name, from) == Unmet(CheckNamed(plan.checks, name).dependsOn[from..], completed)
    decreases RankOf(plan, name), 0, |CheckNamed(plan.checks, name).dependsOn| - from
  {
    var deps := CheckNamed(plan.checks, name).dependsOn;
    hide VerdictOf, CheckNamed, WellFormed, Justified;
    if from < |deps| {
      DependencyIsEarlier(plan, name, deps[from]);
      JustifiedMeansVerdict(plan, completed, deps[from]);
      DependenciesAgree(plan, completed, name, from + 1);
      assert deps[from..][1..] == deps[from + 1..];
    }
  }

  /** A check that was started on justified results and answered unusably has no verdict. */
  lemma RejectedMeansUnsettled(plan: Plan, completed: map<string, CheckResult>, c: Check)
    requires WellFormed(plan) && Justified(plan, completed)
    requires c in plan.checks && Ready(c, completed) && Unmet(c.dependsOn, completed) == []
    requires Collect(plan, c).Rejected?
    ensures VerdictOf(plan, c.name).Unsettled?
  {
    var named := CheckNamed(plan.checks, c.name);
    SameNameSameCheck(plan.checks, c, named);
    DependenciesAgree(plan, completed, c.name, 0);
    assert c.dependsOn[0..] == c.dependsOn;
  }

  // ----- where an unsettled verdict comes from

  /** A check that every schedule starts, because all its dependencies pass, and whose answer is refused. */
  ghost predicate Culprit(plan: Plan, name: string)
    requires WellFormed(plan)
  {
    && name in Names(plan.checks)
    && AllSettled(plan, name, 0) && UnmetVerdicts(plan, name, 0) == [] &&
      Collect(plan, CheckNamed(plan.checks, name)).Rejected?
  }

  lemma {:induction false} UnsettledDependency(plan: Plan, name: string, from: nat) returns (j: nat)
    requires WellFormed(plan) && name in Names(plan.checks)
    requires from <= |CheckNamed(plan.checks, name).dependsOn| && !AllSettled(plan, name, from)
    ensures from <= j < |CheckNamed(plan.checks, name).dependsOn|
    ensures CheckNamed(plan.checks, name).dependsOn[j] in Names(plan.checks)
    ensures VerdictOf(plan, CheckNamed(plan.checks, name).dependsOn[j]).Unsettled?
    decreases |CheckNamed(plan.checks, name).dependsOn| - from
  {
    hide VerdictOf, CheckNamed, UnmetVerdicts, WellFormed;
    DependencyIsEarlier(plan, name, CheckNamed(plan.checks, name).dependsOn[from]);
    if VerdictOf(plan, CheckNamed(plan.checks, name).dependsOn[from]).Unsettled? {
      j := from;
    } else {
      j := UnsettledDependency(plan, name, from + 1);
    }
  }

  /** A check without a verdict goes back to a refused answer of a check that is started. */
  lemma {:induction false} UnsettledHasCulprit(plan: Plan, name: string)
    requires WellFormed(plan) && name in Names(plan.checks) && VerdictOf(plan, name).Unsettled?
    ensures exists c :: Culprit(plan, c)
    decreases RankOf(plan, name)
  {
    hide CheckNamed, WellFormed, Collect;
    if AllSettled(plan, name, 0) {
      assert Culprit(plan, name);
    } else {
      var j := UnsettledDependency(plan, name, 0);
      DependencyIsEarlier(plan, name, CheckNamed(plan.checks, name).dependsOn[j]);
      UnsettledHasCulprit(plan, CheckNamed(plan.checks, name).dependsOn[j]);
    }
  }

  /** When every answer is valid, every check has a verdict. */
  lemma ValidAnswersSettle(plan: Plan, name: string)
    requires WellFormed(plan) && name in Names(plan.checks)
    requires forall c | c in plan.checks :: Collect(plan, c).Recorded?
    ensures VerdictOf(plan, name).Settled?
  {
    forall c ensures !Culprit(plan, c) {}
    hide Culprit;
    if VerdictOf(plan, name).Unsettled? { UnsettledHasCulprit(plan, name); }
  }

  // ----- the outcome of a run

  datatype Outcome = Results(results: seq<CheckResult>) | InvalidResult | CycleReported

  /** The only outcome an acyclic plan can have. */
  ghost predicate Expected(plan: Plan, outcome: Outcome)
    requires WellFormed(plan)
  {
    if exists c | c in plan.checks :: VerdictOf(plan, c.name).Unsettled?
    then outcome == InvalidResult
    else
      && outcome.Results?
      && |outcome.results| == |plan.checks|
      && forall i | 0 <= i < |plan.checks| :: VerdictOf(plan, plan.checks[i].name) == Settled(outcome.results[i])
  }

  lemma ExpectedIsUnique(plan: Plan, a: Outcome, b: Outcome)
    requires WellFormed(plan) && Expected(plan, a) && Expected(plan, b)
    ensures a == b
  {
    if a.Results? && b.Results? {
      forall i | 0 <= i < |plan.checks| ensures a.results[i] == b.results[i] {
        assert VerdictOf(plan, plan.checks[i].name) == Settled(a.results[i]);
        assert VerdictOf(plan, plan.checks[i].name) == Settled(b.results[i]);
      }
    }
  }

  /** The run is stopped for an invalid result exactly when some check that gets started answers so. */
  lemma InvalidMeansCulprit(plan: Plan, outcome: Outcome)
    requires WellFormed(plan) && Expected(plan, outcome)
    ensures outcome.InvalidResult? <==> exists c :: Culprit(plan, c)
  {
    hide WellFormed;
    if outcome.InvalidResult? {
      var c :| c in plan.checks && VerdictOf(plan, c.name).Unsettled?;
      UnsettledHasCulprit(plan, c.name);
    }
    if n :| Culprit(plan, n) {
      var c := CheckNamed(plan.checks, n);
      assert c in plan.checks && VerdictOf(plan, c.name).Unsettled?;
    }
  }
}
