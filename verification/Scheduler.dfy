/** HealthCtl's `evaluate_config`: a bounded concurrent scheduler whose completions arrive in any order. */
module Scheduler {
  import opened Basics
  import opened HealthChecks
  import opened SchedulerSpec
  import opened SchedulerResults
  import opened SchedulerState

  class Run {
    const plan: Plan
    const maxWorkers: nat
    var waiting: seq<Check>
    // Started threads whose result the loop has not taken from the `finished` queue.
    var inFlight: seq<Check>
    var running: nat
    var completed: map<string, CheckResult>
    ghost var launched: seq<Check>
    ghost var order: seq<string>

    ghost function View(): State
      reads this
    {
      State(waiting, inFlight, completed, launched, order)
    }

    ghost predicate Valid()
      reads this
    {
      Safe(plan, View(), maxWorkers) && running == |inFlight| && maxWorkers >= 1
    }

    /** Checks not completed yet, an upper bound on the results still to be taken. */
    ghost function Remaining(): nat
      reads this
    {
      |waiting| + |inFlight|
    }

    constructor (plan: Plan, maxWorkers: nat)
      requires DistinctNames(plan.checks) && maxWorkers >= 1
      ensures Valid() && this.plan == plan && this.maxWorkers == maxWorkers && View() == Initial(plan.checks)
    {
      this.plan, this.maxWorkers := plan, maxWorkers;
      waiting, inFlight, running, completed := plan.checks, [], 0, map[];
      launched, order := [], [];
      new;
      InitialIsSafe(plan, maxWorkers);
    }

    method Skip(c: Check, unmet: seq<string>)
      requires Valid() && CanSkip(View(), c) && unmet == Unmet(c.dependsOn, completed)
      modifies this
      ensures Valid() && View() == AfterSkip(old(View()), c)
      ensures |waiting| == |old(waiting)| - 1 && Remaining() < old(Remaining())
    {
      hide Safe;
      ghost var next := AfterSkip(View(), c);
      SkipIsSafe(plan, View(), c, maxWorkers);
      completed := completed[c.name := SkippedResult(c, unmet)];
      order := order + [c.name];
      waiting := Without(waiting, c);
      assert View() == next;
    }

    method Start(c: Check)
      requires Valid() && CanStart(View(), c, maxWorkers)
      modifies this
      ensures Valid() && View() == AfterStart(old(View()), c)
      ensures |waiting| == |old(waiting)| - 1 && Remaining() == old(Remaining())
    {
      hide Safe;
      ghost var next := AfterStart(View(), c);
      StartIsSafe(plan, View(), c, maxWorkers);
      inFlight, running, launched := inFlight + [c], running + 1, launched + [c];
      waiting := Without(waiting, c);
      assert View() == next;
    }

    /** The body of the dispatch loop for one check of the snapshot. */
    method Consider(c: Check) returns (moved: bool)
      requires Valid() && c in waiting
      modifies this
      ensures Valid()
      ensures moved == !Blocked(old(View()), c, maxWorkers)
      ensures View() ==
        if CanSkip(old(View()), c) then AfterSkip(old(View()), c)
        else if CanStart(old(View()), c, maxWorkers) then AfterStart(old(View()), c)
        else old(View())
      ensures moved ==> |waiting| == |old(waiting)| - 1 && Remaining() <= old(Remaining())
      ensures !moved ==> View() == old(View())
      ensures waiting == if moved then Without(old(waiting), c) else old(waiting)
    {
      if !Ready(c, completed) { return false; }
      var unmet := Unmet(c.dependsOn, completed);
      if unmet != [] {
        Skip(c, unmet);
      } else if running < maxWorkers {
        Start(c);
      } else {
        return false;
      }
      return true;
    }

    lemma AllCompleted()
      requires Valid() && waiting == [] && inFlight == []
      ensures forall c | c in plan.checks :: c.name in completed
    {
      forall c | c in plan.checks ensures c.name in completed { assert InOnePlace(View(), c); }
    }

    lemma WaitingIsDistinct()
      requires Valid()
      ensures Distinct(waiting)
    {}

    /** One pass over a snapshot of `waiting`. */
    method Pass() returns (progressed: bool)
      requires Valid()
      modifies this
      ensures Valid() && Remaining() <= old(Remaining())
      ensures progressed ==> |waiting| < |old(waiting)|
      ensures !progressed ==> View() == old(View())
      ensures !progressed ==> forall c | c in waiting :: Blocked(View(), c, maxWorkers)
    {
      hide Run.Valid, Safe, Blocked, CanSkip, CanStart, Without, AfterSkip, AfterStart;
      progressed := false;
      var snapshot := waiting;
      WaitingIsDistinct();
      for i := 0 to |snapshot|
        invariant Valid() && Remaining() <= old(Remaining())
        invariant Distinct(waiting) && forall j | i <= j < |snapshot| :: snapshot[j] in waiting
        invariant progressed ==> |waiting| < |snapshot|
        invariant !progressed ==> View() == old(View())
        invariant !progressed ==> forall j | 0 <= j < i :: Blocked(View(), snapshot[j], maxWorkers)
      {
        WithoutIsRemoval(waiting, snapshot[i]);
        var moved := Consider(snapshot[i]);
        progressed := progressed || moved;
      }
    }

    /** The `while progressed` loop: afterwards no waiting check could be skipped or started. */
    method Dispatch()
      requires Valid()
      modifies this
      ensures Valid() && Remaining() <= old(Remaining())
      ensures forall c | c in waiting :: Blocked(View(), c, maxWorkers)
    {
      var progressed := true;
      while progressed
        invariant Valid() && Remaining() <= old(Remaining())
        invariant !progressed ==> forall c | c in waiting :: Blocked(View(), c, maxWorkers)
        decreases |waiting| + (if progressed then 1 else 0)
      {
        progressed := Pass();
      }
    }

    /** `finished.get()` and the validation of what it returned; the environment picks the check. */
    method TakeFinished() returns (accepted: bool, c: Check)
      requires Valid() && inFlight != []
      modifies this
      ensures c in old(inFlight) && accepted == CanFinish(old(View()), plan, c)
      ensures accepted ==> Valid() && View() == AfterFinish(old(View()), plan, c) && Remaining() < old(Remaining())
    {
      var k :| 0 <= k < |inFlight|;
      c := inFlight[k];
      running := running - 1;
      var collected := Collect(plan, c);
      if collected.Rejected? { return false, c; }
      FinishIsSafe(plan, View(), c, maxWorkers);
      inFlight := Without(inFlight, c);
      completed := completed[c.name := collected.result];
      order := order + [c.name];
      return true, c;
    }
  }

  /**
   * `evaluate_config`. Whatever order the environment completes checks in and whatever `maxWorkers` is,
   * an acyclic configuration has exactly one outcome, and it is the recursive specification.
   */
  method Evaluate(plan: Plan, maxWorkers: nat) returns (outcome: Outcome)
    requires DistinctNames(plan.checks) && maxWorkers >= 1
    ensures WellFormed(plan) ==> Expected(plan, outcome)
    ensures !WellFormed(plan) ==> outcome.InvalidResult? || outcome.CycleReported?
    ensures outcome.CycleReported? ==> !WellFormed(plan)
    ensures WellFormed(plan) && outcome.Results? ==> Explained(plan.execute, plan.checks, outcome.results)
    ensures WellFormed(plan) && AnswersAreValid(plan.execute, plan.checks) ==> outcome.Results?
  {
    hide Explained, AnswersAreValid, Expected, Safe, Collect, Blocked;
    var run := new Run(plan, maxWorkers);
    while true
      invariant fresh(run) && run.Valid() && run.plan == plan
      invariant run.maxWorkers == maxWorkers
      decreases run.Remaining()
    {
      run.Dispatch();
      if run.running == 0 { break; }
      ghost var before := run.View();
      var accepted, c := run.TakeFinished();
      if !accepted {
        if WellFormed(plan) { RefusalStops(plan, before, maxWorkers, c); }
        return InvalidResult;
      }
    }
    if run.waiting != [] {
      StuckMeansNotAcyclic(plan, run.View(), maxWorkers);
      return CycleReported;
    }
    outcome := InConfigurationOrder(run);
    FinishedMeansExpected(plan, run.View(), maxWorkers, outcome);
    if WellFormed(plan) { ExpectedIsExplained(plan, outcome); }
  }

  lemma RefusalStops(plan: Plan, s: State, maxWorkers: nat, c: Check)
    requires WellFormed(plan) && Safe(plan, s, maxWorkers) && c in s.inFlight && Collect(plan, c).Rejected?
    ensures Expected(plan, InvalidResult) && !AnswersAreValid(plan.execute, plan.checks)
  {
    hide Expected, AnswersAreValid, WellFormed, Collect;
    RefusedAnswerStops(plan, s.completed, c);
  }

  /** The final `sorted(..., key=order)`: one result per check, in configuration order. */
  method InConfigurationOrder(run: Run) returns (outcome: Outcome)
    requires run.Valid() && run.waiting == [] && run.inFlight == []
    ensures outcome.Results? && |outcome.results| == |run.plan.checks|
    ensures forall i | 0 <= i < |run.plan.checks| ::
      run.plan.checks[i].name in run.completed && outcome.results[i] == run.completed[run.plan.checks[i].name]
  {
    hide Safe;
    var checks := run.plan.checks;
    var results := [];
    run.AllCompleted();
    for i := 0 to |checks|
      invariant |results| == i
      invariant forall j | 0 <= j < i :: checks[j].name in run.completed && results[j] == run.completed[checks[j].name]
    {
      results := results + [run.completed[checks[i].name]];
    }
    outcome := Results(results);
  }
}
