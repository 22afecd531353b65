/** HealthCtl from the parsed checks to the results: name and dependency validation, selection, evaluation. */
module HealthRun {
  import opened Basics
  import opened HealthChecks
  import opened Dependencies
  import opened SchedulerSpec
  import opened SchedulerResults
  import opened Scheduler
  import opened Selection

  datatype Configured = Usable | DuplicateName(name: string) | BadDependencies(validation: Validation)

  /** The name set of `parse_config_document`, then `_validate_dependencies`. */
  method Configure(checks: seq<Check>) returns (r: Configured)
    ensures r.DuplicateName? <==> !DistinctNames(checks)
    ensures r.DuplicateName? ==> exists i, j :: 0 <= i < j < |checks| && checks[i].name == checks[j].name == r.name
    ensures DistinctNames(checks) ==> (r.Usable? <==> AllNameOthers(checks) && Acyclic(GraphOf(checks)))
  {
    var names: set<string> := {};
    for i := 0 to |checks|
      invariant names == Names(checks[..i]) && DistinctNames(checks[..i])
    {
      assert checks[..i + 1] == checks[..i] + [checks[i]];
      if checks[i].name in names {
        var c :| c in checks[..i] && c.name == checks[i].name;
        var k :| 0 <= k < i && checks[k] == c;
        return DuplicateName(checks[i].name);
      }
      OneMoreName(checks[..i], checks[i]);
      names := names + {checks[i].name};
    }
    assert checks[..|checks|] == checks;
    var validation := ValidateDependencies(checks);
    ValidMeans(checks);
    if Acyclic(GraphOf(checks)) { AcyclicHasNoCycle(GraphOf(checks)); }
    r := if validation.Accepted? then Usable else BadDependencies(validation);
  }

  lemma OneMoreName(checks: seq<Check>, c: Check)
    requires DistinctNames(checks) && c.name !in Names(checks)
    ensures DistinctNames(checks + [c]) && Names(checks + [c]) == Names(checks) + {c.name}
  {
    var more := checks + [c];
    forall i, j | 0 <= i < j < |more| ensures more[i].name != more[j].name {
      assert checks[i] in checks;
    }
    forall n | n in Names(checks) + {c.name} ensures n in Names(more) {
      if n in Names(checks) {
        var x :| x in checks && x.name == n;
        assert x in more;
      } else {
        assert more[|checks|] == c;
      }
    }
  }

  datatype Report =
    | Refused(configured: Configured)
    | NothingToRun
    | OmitsRequired
    | Evaluated(checks: seq<Check>, outcome: Outcome)

  /**
   * The whole run. With valid executor answers a usable configuration and a complete selection always end with one
   * result per selected check, in order: the verdict it has in the whole configuration.
   */
  method RunChecks(plan: Plan, profile: Choice, group: Choice, maxWorkers: nat) returns (r: Report)
    requires maxWorkers >= 1
    ensures r.Refused? <==>
      !(DistinctNames(plan.checks) && AllNameOthers(plan.checks) && Acyclic(GraphOf(plan.checks)))
    ensures !r.Refused? ==> (r.NothingToRun? <==> forall c | c in plan.checks :: !Chosen(profile, group, c))
    ensures !r.Refused? && !r.NothingToRun? ==> (r.OmitsRequired? <==>
      exists c, d :: c in plan.checks && Chosen(profile, group, c) && d in c.dependsOn &&
        forall e | e in plan.checks && e.name == d :: !Chosen(profile, group, e))
    ensures r.Evaluated? ==> Filters(r.checks, plan.checks, ChosenBy(profile, group)) && WellFormed(plan)
    ensures r.Evaluated? ==> !r.outcome.CycleReported?
    ensures r.Evaluated? && AnswersAreValid(plan.execute, r.checks) ==> r.outcome.Results?
    ensures r.Evaluated? && r.outcome.Results? ==> Explained(plan.execute, r.checks, r.outcome.results)
    ensures r.Evaluated? && r.outcome.Results? ==> |r.outcome.results| == |r.checks|
    ensures r.Evaluated? && r.outcome.Results? ==> forall i | 0 <= i < |r.checks| ::
      r.checks[i].name in Names(plan.checks) && VerdictOf(plan, r.checks[i].name) == Settled(r.outcome.results[i])
  {
    hide VerdictOf, Acyclic, AllDependenciesValid, AllNameOthers, GraphOf, Explained, AnswersAreValid, Filters,
         ChosenBy;
    var configured := Configure(plan.checks);
    if !configured.Usable? { return Refused(configured); }
    KeptIsFilter(plan.checks, profile, group);
    KeptIsChosen(plan.checks, profile, group);
    hide Kept, DependencyClosed, Chosen;
    var selected := Select(plan.checks, profile, group);
    match selected {
      case NothingSelected => return NothingToRun;
      case OmitsDependency => return OmitsRequired;
      case Checks(checks) =>
        var part := Plan(checks, plan.execute);
        KeptIsDistinct(plan.checks, profile, group);
        SelectionIsAcyclic(plan.checks, checks);
        assert WellFormed(plan) && WellFormed(part);
        var outcome := Evaluate(part, maxWorkers);
        PartOutcome(plan, part, outcome);
        return Evaluated(checks, outcome);
    }
  }

  /** What is kept, and when something required is missing from it, in terms of the choice. */
  lemma KeptIsChosen(checks: seq<Check>, profile: Choice, group: Choice)
    ensures Kept(checks, profile, group) == [] <==> forall c | c in checks :: !Chosen(profile, group, c)
    ensures !DependencyClosed(Kept(checks, profile, group)) <==>
      exists c, d :: c in checks && Chosen(profile, group, c) && d in c.dependsOn &&
        forall e | e in checks && e.name == d :: !Chosen(profile, group, e)
  {
    var kept := Kept(checks, profile, group);
    forall c ensures c in kept <==> c in checks && Chosen(profile, group, c) {}
    hide Kept, Chosen;
    if kept != [] { assert kept[0] in kept; }
    if !DependencyClosed(kept) {
      var c, d :| c in kept && d in c.dependsOn && d !in Names(kept);
      forall e | e in checks && e.name == d ensures !Chosen(profile, group, e) { assert e !in kept; }
    }
    if c, d :| c in kept && d in c.dependsOn && forall e | e in checks && e.name == d :: !Chosen(profile, group, e) {
      assert d !in Names(kept);
    }
  }

  /** What the outcome of a selection says about the whole configuration. */
  lemma PartOutcome(whole: Plan, part: Plan, outcome: Outcome)
    requires WellFormed(whole) && WellFormed(part) && whole.execute == part.execute
    requires (forall c | c in part.checks :: c in whole.checks) && Expected(part, outcome)
    ensures !outcome.CycleReported?
    ensures outcome.Results? ==> |outcome.results| == |part.checks| && forall i | 0 <= i < |part.checks| ::
      part.checks[i].name in Names(whole.checks) && VerdictOf(whole, part.checks[i].name) == Settled(outcome.results[i])
  {
    hide VerdictOf, WellFormed;
    if outcome.Results? {
      forall i | 0 <= i < |part.checks|
        ensures part.checks[i].name in Names(whole.checks)
        ensures VerdictOf(whole, part.checks[i].name) == Settled(outcome.results[i])
      {
        SelectionKeepsVerdict(whole, part, part.checks[i].name);
      }
    }
  }
}
