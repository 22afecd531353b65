/** Statements over whole runs of the scheduler's transition system, under every interleaving. */
module SchedulerRuns {
  import opened HealthChecks
  import opened Dependencies
  import opened SchedulerSpec
  import opened SchedulerState

  ghost predicate StepOf(plan: Plan, maxWorkers: nat, s: State, t: State, c: Check) {
    || (CanSkip(s, c) && t == AfterSkip(s, c))
    || (CanStart(s, c, maxWorkers) && t == AfterStart(s, c))
    || (CanFinish(s, plan, c) && t == AfterFinish(s, plan, c))
  }

  ghost predicate Next(plan: Plan, maxWorkers: nat, s: State, t: State) {
    exists c :: StepOf(plan, maxWorkers, s, t, c)
  }

  /** Skips, starts and completions in any order the environment likes. */
  ghost predicate IsRun(plan: Plan, maxWorkers: nat, run: seq<State>) {
    && run != [] && run[0] == Initial(plan.checks)
    && forall i | 0 <= i < |run| - 1 :: Next(plan, maxWorkers, run[i], run[i + 1])
  }

  predicate Finished(s: State) {
    s.waiting == [] && s.inFlight == []
  }

  function Measure(s: State): nat {
    2 * |s.waiting| + |s.inFlight|
  }

  /** Every step keeps the safety invariant and strictly decreases the measure. */
  lemma StepIsSafe(plan: Plan, maxWorkers: nat, s: State, t: State)
    requires Safe(plan, s, maxWorkers) && Next(plan, maxWorkers, s, t)
    ensures Safe(plan, t, maxWorkers)
    ensures Measure(t) < Measure(s)
  {
    hide Safe;
    var c :| StepOf(plan, maxWorkers, s, t, c);
    if CanSkip(s, c) {
      SkipIsSafe(plan, s, c, maxWorkers);
    }
    if CanStart(s, c, maxWorkers) {
      StartIsSafe(plan, s, c, maxWorkers);
    }
    if CanFinish(s, plan, c) {
      FinishIsSafe(plan, s, c, maxWorkers);
    }
  }

  /** Safety of every reachable state, and a bound on the length of every run. */
  lemma {:induction false} RunsAreSafe(plan: Plan, maxWorkers: nat, run: seq<State>)
    requires DistinctNames(plan.checks) && IsRun(plan, maxWorkers, run)
    ensures forall s | s in run :: Safe(plan, s, maxWorkers)
    ensures |run| + Measure(run[|run| - 1]) <= 2 * |plan.checks| + 1
    decreases |run|
  {
    hide Safe;
    if |run| == 1 {
      InitialIsSafe(plan, maxWorkers);
    } else {
      var before := run[..|run| - 1];
      RunsAreSafe(plan, maxWorkers, before);
      assert Next(plan, maxWorkers, run[|run| - 2], run[|run| - 1]);
      assert run[|run| - 2] == before[|before| - 1];
      StepIsSafe(plan, maxWorkers, run[|run| - 2], run[|run| - 1]);
      assert run == before + [run[|run| - 1]];
    }
  }

  /** No deadlock: an unfinished safe state of an acyclic plan has a step or holds an unusable answer. */
  lemma Progress(plan: Plan, maxWorkers: nat, s: State)
    requires WellFormed(plan) && Safe(plan, s, maxWorkers) && maxWorkers >= 1 && !Finished(s)
    ensures (exists t :: Next(plan, maxWorkers, s, t)) || (exists c | c in s.inFlight :: Collect(plan, c).Rejected?)
  {
    hide Safe;
    if s.inFlight != [] {
      var c := s.inFlight[0];
      if CanFinish(s, plan, c) {
        assert StepOf(plan, maxWorkers, s, AfterFinish(s, plan, c), c);
        assert Next(plan, maxWorkers, s, AfterFinish(s, plan, c));
      }
    } else if c :| c in s.waiting && !Blocked(s, c, maxWorkers) {
      if CanSkip(s, c) {
        assert StepOf(plan, maxWorkers, s, AfterSkip(s, c), c);
        assert Next(plan, maxWorkers, s, AfterSkip(s, c));
      } else {
        assert StepOf(plan, maxWorkers, s, AfterStart(s, c), c);
        assert Next(plan, maxWorkers, s, AfterStart(s, c));
      }
    } else {
      StuckMeansNotAcyclic(plan, s, maxWorkers);
    }
  }

  /** `s` holds the recursive verdict of every check and made the executor calls the verdicts ask for. */
  ghost predicate HoldsVerdicts(plan: Plan, s: State)
    requires WellFormed(plan)
  {
    && s.completed.Keys == Names(plan.checks)
    && (forall n | n in Names(plan.checks) :: VerdictOf(plan, n) == Settled(s.completed[n]))
    && (forall c | c in plan.checks :: c in s.launched <==> UnmetVerdicts(plan, c.name, 0) == [])
  }

  lemma SettledCheck(plan: Plan, s: State, maxWorkers: nat, c: Check)
    requires WellFormed(plan) && Safe(plan, s, maxWorkers) && Finished(s) && c in plan.checks
    ensures c.name in s.completed && VerdictOf(plan, c.name) == Settled(s.completed[c.name])
    ensures c in s.launched <==> UnmetVerdicts(plan, c.name, 0) == []
  {
    assert InOnePlace(s, c) && Follows(plan, c, s.completed);
    JustifiedMeansVerdict(plan, s.completed, c.name);
    SameNameSameCheck(plan.checks, c, CheckNamed(plan.checks, c.name));
    DependenciesAgree(plan, s.completed, c.name, 0);
    assert c.dependsOn[0..] == c.dependsOn;
  }

  lemma ConfiguredNames(plan: Plan, s: State, maxWorkers: nat)
    requires Safe(plan, s, maxWorkers)
    ensures s.completed.Keys <= Names(plan.checks) && forall c | c in plan.checks :: c.name in Names(plan.checks)
  {}

  lemma SettledName(plan: Plan, s: State, maxWorkers: nat, n: string)
    requires WellFormed(plan) && Safe(plan, s, maxWorkers) && Finished(s) && n in Names(plan.checks)
    ensures n in s.completed && VerdictOf(plan, n) == Settled(s.completed[n])
  {
    hide Safe, WellFormed, Finished, VerdictOf;
    var c :| c in plan.checks && c.name == n;
    SettledCheck(plan, s, maxWorkers, c);
  }

  lemma FinishedState(plan: Plan, s: State, maxWorkers: nat)
    requires WellFormed(plan) && Safe(plan, s, maxWorkers) && Finished(s)
    ensures HoldsVerdicts(plan, s)
  {
    hide Safe, WellFormed, Finished, VerdictOf, UnmetVerdicts, Names, CheckNamed, GraphOf;
    ConfiguredNames(plan, s, maxWorkers);
    forall n | n in Names(plan.checks) ensures n in s.completed && VerdictOf(plan, n) == Settled(s.completed[n]) {
      SettledName(plan, s, maxWorkers, n);
    }
    forall c | c in plan.checks ensures c in s.launched <==> UnmetVerdicts(plan, c.name, 0) == [] {
      SettledCheck(plan, s, maxWorkers, c);
    }
  }

  lemma FinishedRun(plan: Plan, maxWorkers: nat, run: seq<State>)
    requires WellFormed(plan) && IsRun(plan, maxWorkers, run) && Finished(run[|run| - 1])
    ensures HoldsVerdicts(plan, run[|run| - 1])
  {
    hide Safe, HoldsVerdicts, Finished;
    RunsAreSafe(plan, maxWorkers, run);
    FinishedState(plan, run[|run| - 1], maxWorkers);
  }

  lemma VerdictsDetermineState(plan: Plan, s: State, t: State)
    requires WellFormed(plan) && HoldsVerdicts(plan, s) && HoldsVerdicts(plan, t)
    ensures s.completed == t.completed
    ensures forall c | c in plan.checks :: c in s.launched <==> c in t.launched
  {
    hide WellFormed, UnmetVerdicts;
    forall n | n in s.completed ensures s.completed[n] == t.completed[n] {
      assert VerdictOf(plan, n) == Settled(s.completed[n]) && VerdictOf(plan, n) == Settled(t.completed[n]);
    }
  }

  /** Confluence: any two finished runs, with any two worker caps, hold the same results and made the same calls. */
  lemma Confluence(plan: Plan, workersA: nat, a: seq<State>, workersB: nat, b: seq<State>)
    requires WellFormed(plan)
    requires IsRun(plan, workersA, a) && Finished(a[|a| - 1])
    requires IsRun(plan, workersB, b) && Finished(b[|b| - 1])
    ensures a[|a| - 1].completed == b[|b| - 1].completed
    ensures forall c | c in plan.checks :: c in a[|a| - 1].launched <==> c in b[|b| - 1].launched
  {
    var s, t := a[|a| - 1], b[|b| - 1];
    hide IsRun, Finished, HoldsVerdicts;
    FinishedRun(plan, workersA, a);
    FinishedRun(plan, workersB, b);
    VerdictsDetermineState(plan, s, t);
  }
}
