/**
 * CertWatch's `inspect_targets`: worker threads draining one queue, and a caller that stops waiting at a deadline.
 * Every atomic step of every thread may be interleaved with every other.
 */
module WorkerPool {
  import opened Basics

  /** `TimeLimitSkip` and `TimeLimitError` are the two "overall time limit" outcomes of the source. */
  datatype TargetOutcome = Inspected(report: string) | TimeLimitSkip | TimeLimitError

  /** Where a worker is inside its `while not failures` loop. */
  datatype Phase =
    | AtLoop
    | Fetching
    | Holding(index: nat)
    | Marked(index: nat)
    | Inspecting(index: nat)
    | Late(index: nat)
    | Stopped

  datatype Main =
    | Joining(next: nat)
    | Checked
    | CopiedOutcomes(finished: seq<Option<TargetOutcome>>)
    | Returned(finished: seq<Option<TargetOutcome>>, startedIndexes: set<nat>, begunAtCopy: set<nat>)
    | Raised

  /** The history of one target: waiting, in the hands of a worker, done, or dropped by a failing worker. */
  datatype Stage = Queued | InHand(worker: nat, phase: Phase) | Reported | Skipped | Dropped(phase: Phase)

  /**
   * `queue`, `outcomes`, `started` and `failures` are the source's shared variables and `expired` says whether the
   * clock passed the deadline. The rest is history: the indexes taken and the slots written so far, the inspections
   * begun, the stage of every target, and whether some join gave up waiting.
   */
  datatype State = State(
    queue: seq<nat>,
    outcomes: seq<Option<TargetOutcome>>,
    started: set<nat>,
    failures: nat,
    workers: seq<Phase>,
    main: Main,
    expired: bool,
    dequeued: seq<nat>,
    written: seq<nat>,
    begun: set<nat>,
    stage: seq<Stage>,
    timedOut: bool)

  const MAX_PARALLEL_TARGETS: nat := 8

  function Initial(n: nat): State {
    State(seq(n, i => i), seq(n, _ => None), {}, 0, seq(Smaller(MAX_PARALLEL_TARGETS, n), _ => AtLoop),
          Joining(0), false, [], [], {}, seq(n, _ => Queued), false)
  }

  // ----- the steps of worker `w`

  predicate HasIndex(p: Phase) {
    p.Holding? || p.Marked? || p.Inspecting? || p.Late?
  }

  /** Worker `w` moves to phase `p`, with target `i` in its hands if the phase has one. */
  function Moved(s: State, w: nat, p: Phase): State
    requires w < |s.workers| && (HasIndex(p) ==> p.index < |s.stage|)
  {
    s.(workers := s.workers[w := p], stage := if HasIndex(p) then s.stage[p.index := InHand(w, p)] else s.stage)
  }

  /** Worker `w` writes the outcome slot of target `i` and goes back to the loop head. */
  function Wrote(s: State, w: nat, i: nat, outcome: TargetOutcome, stage: Stage): State
    requires w < |s.workers| && i < |s.stage| && i < |s.outcomes|
  {
    s.(workers := s.workers[w := AtLoop], stage := s.stage[i := stage],
       outcomes := s.outcomes[i := Some(outcome)], written := s.written + [i])
  }

  predicate Fits(s: State) {
    && |s.stage| == |s.outcomes|
    && (s.queue != [] ==> s.queue[0] < |s.stage|)
    && (forall w | 0 <= w < |s.workers| && HasIndex(s.workers[w]) :: s.workers[w].index < |s.stage|)
  }

  ghost predicate WorkerStep(s: State, t: State, w: nat)
    requires Fits(s) && w < |s.workers|
  {
    match s.workers[w]
    case AtLoop => t == Moved(s, w, if s.failures == 0 then Fetching else Stopped)
    case Fetching =>
      if s.queue == [] then t == Moved(s, w, Stopped)
      else t == Moved(s, w, Holding(s.queue[0])).(queue := s.queue[1..], dequeued := s.dequeued + [s.queue[0]])
    case Holding(i) => t == Moved(s, w, Marked(i)).(started := s.started + {i})
    case Marked(i) =>
      if s.expired then t == Moved(s, w, Late(i)) else t == Moved(s, w, Inspecting(i)).(begun := s.begun + {i})
    case Inspecting(i) => exists report :: t == Wrote(s, w, i, Inspected(report), Reported)
    case Late(i) => t == Wrote(s, w, i, TimeLimitSkip, Skipped)
    case Stopped => false
  }

  /** An exception anywhere in the loop body ends the worker. */
  predicate FailStep(s: State, t: State, w: nat)
    requires Fits(s) && w < |s.workers|
  {
    var p := s.workers[w];
    && !p.Stopped?
    && t == s.(workers := s.workers[w := Stopped], failures := s.failures + 1,
               stage := if HasIndex(p) then s.stage[p.index := Dropped(p)] else s.stage)
  }

  // ----- the steps of the caller

  predicate MainStep(s: State, t: State) {
    match s.main
    case Joining(k) =>
      if k < |s.workers| then t == s.(main := Joining(k + 1), timedOut := s.timedOut || !s.workers[k].Stopped?)
      else t == s.(main := if s.failures > 0 then Raised else Checked)
    case Checked => t == s.(main := CopiedOutcomes(s.outcomes))
    case CopiedOutcomes(finished) => t == s.(main := Returned(finished, s.started, s.begun))
    case _ => false
  }

  predicate ClockStep(s: State, t: State) {
    t == s.(expired := true)
  }

  ghost predicate ThreadStep(s: State, t: State, w: nat) {
    Fits(s) && w < |s.workers| && (WorkerStep(s, t, w) || FailStep(s, t, w))
  }

  ghost predicate Next(s: State, t: State) {
    MainStep(s, t) || ClockStep(s, t) || exists w: nat :: ThreadStep(s, t, w)
  }

  // ----- the invariant

  predicate IsStarted(st: Stage) {
    st.Reported? || st.Skipped? || ((st.InHand? || st.Dropped?) && !st.phase.Holding?)
  }

  predicate IsBegun(st: Stage) {
    st.Reported? || ((st.InHand? || st.Dropped?) && st.phase.Inspecting?)
  }

  predicate IsWritten(st: Stage) {
    st.Reported? || st.Skipped?
  }

  /** The slot of a target holds a report, the time-limit skip, or nothing yet, as its stage says. */
  predicate SlotOk(st: Stage, slot: Option<TargetOutcome>, expired: bool) {
    match st
    case Reported => slot.Some? && slot.value.Inspected?
    case Skipped => slot == Some(TimeLimitSkip) && expired
    case _ => slot.None?
  }

  /** The shared variables agree with the stage of target `i`. */
  predicate TargetOk(s: State, i: nat) {
    && i < |s.stage| == |s.outcomes|
    && (i in s.started <==> IsStarted(s.stage[i]))
    && (i in s.begun <==> IsBegun(s.stage[i]))
    && (i in s.written <==> IsWritten(s.stage[i]))
    && (i < |s.dequeued| <==> s.stage[i] != Queued)
    && SlotOk(s.stage[i], s.outcomes[i], s.expired)
    && (s.stage[i].InHand? ==> s.stage[i].worker < |s.workers| && s.workers[s.stage[i].worker] == s.stage[i].phase)
    && (s.stage[i].InHand? || s.stage[i].Dropped? ==> HasIndex(s.stage[i].phase) && s.stage[i].phase.index == i)
    && (s.stage[i].Dropped? ==> s.failures > 0)
    && (s.stage[i].InHand? && s.stage[i].phase.Late? ==> s.expired)
  }

  /** A worker's target is in its hands, and without a failure a worker stops only on an empty queue. */
  predicate WorkerOk(s: State, w: nat)
    requires w < |s.workers|
  {
    && (HasIndex(s.workers[w]) ==>
        s.workers[w].index < |s.stage| && s.stage[s.workers[w].index] == InHand(w, s.workers[w]))
    && (s.workers[w].Stopped? && s.failures == 0 ==> s.queue == [])
  }

  /** Each index leaves the queue once, in input order. */
  predicate QueueInOrder(n: nat, s: State) {
    && |s.dequeued| + |s.queue| == n == |s.outcomes| == |s.stage|
    && (forall i | 0 <= i < |s.dequeued| :: s.dequeued[i] == i)
    && (forall i | 0 <= i < |s.queue| :: s.queue[i] == |s.dequeued| + i)
  }

  predicate CopyOf(finished: seq<Option<TargetOutcome>>, outcomes: seq<Option<TargetOutcome>>) {
    |finished| == |outcomes| && forall i | 0 <= i < |finished| :: finished[i].Some? ==> finished[i] == outcomes[i]
  }

  predicate NoGap(finished: seq<Option<TargetOutcome>>) {
    forall i | 0 <= i < |finished| :: finished[i].Some?
  }

  /** A report in the copy belongs to a target begun by then, a skip to one that never begins. */
  predicate CopyIsHonest(finished: seq<Option<TargetOutcome>>, begun: set<nat>) {
    forall i | 0 <= i < |finished| && finished[i].Some? ::
      (finished[i].value.Inspected? && i in begun) || (finished[i].value.TimeLimitSkip? && i !in begun)
  }

  /** The caller's copies were once the shared values. */
  predicate MainOk(s: State) {
    match s.main
    case Joining(k) => k <= |s.workers| && (!s.timedOut ==> forall w | 0 <= w < k :: s.workers[w].Stopped?)
    case Checked => !s.timedOut ==> forall w | 0 <= w < |s.workers| :: s.workers[w].Stopped?
    case CopiedOutcomes(finished) =>
      CopyOf(finished, s.outcomes) && (!s.timedOut && s.failures == 0 ==> NoGap(finished))
    case Returned(finished, startedIndexes, begunAtCopy) =>
      && CopyOf(finished, s.outcomes) && CopyIsHonest(finished, begunAtCopy)
      && begunAtCopy <= startedIndexes <= s.started
      && (forall i: nat | i < |finished| && finished[i].Some? :: i in startedIndexes)
      && (!s.timedOut && s.failures == 0 ==> NoGap(finished))
    case Raised => s.failures > 0
  }

  ghost predicate TargetsOk(s: State) {
    && (forall i: nat | i < |s.stage| :: TargetOk(s, i))
    && (forall i | i in s.started :: i < |s.stage|)
    && (forall i | i in s.begun :: i < |s.stage|)
    && (forall i | i in s.written :: i < |s.stage|)
  }

  ghost predicate Inv(n: nat, s: State) {
    && |s.workers| == Smaller(MAX_PARALLEL_TARGETS, n)
    && QueueInOrder(n, s)
    && TargetsOk(s)
    && (forall w: nat | w < |s.workers| :: WorkerOk(s, w))
    && Distinct(s.written)
    && MainOk(s)
  }

  lemma InitialInv(n: nat)
    ensures Inv(n, Initial(n))
  {}

  /** A worker without a target in its hands changes phase. */
  lemma IdleMove(n: nat, s: State, t: State, w: nat, p: Phase)
    requires Inv(n, s) && w < |s.workers| && !HasIndex(s.workers[w]) && !HasIndex(p) && !s.workers[w].Stopped?
    requires p.Stopped? && s.failures == 0 ==> s.queue == []
    requires t == s.(workers := s.workers[w := p])
    ensures Inv(n, t)
  {
    forall i: nat | i < |t.stage| ensures TargetOk(t, i) { assert TargetOk(s, i); }
    forall v: nat | v < |t.workers| ensures WorkerOk(t, v) { assert WorkerOk(s, v); }
  }

  lemma TakeStep(n: nat, s: State, t: State, w: nat)
    requires Inv(n, s) && Fits(s) && w < |s.workers| && s.workers[w] == Fetching && s.queue != []
    requires WorkerStep(s, t, w)
    ensures Inv(n, t)
  {
    var k := s.queue[0];
    assert TargetOk(s, k);
    forall i: nat | i < |t.stage| ensures TargetOk(t, i) { assert TargetOk(s, i); }
    forall v: nat | v < |t.workers| ensures WorkerOk(t, v) { assert WorkerOk(s, v); }
  }

  /** The target in the hands of `w` moves to another phase of the same worker. */
  lemma HandMove(n: nat, s: State, t: State, w: nat, p: Phase)
    requires Inv(n, s) && w < |s.workers| && HasIndex(s.workers[w]) && HasIndex(p) && p.index == s.workers[w].index
    requires p.index < |s.stage|
    requires t == Moved(s, w, p).(
      started := if IsStarted(InHand(w, p)) then s.started + {p.index} else s.started,
      begun := if IsBegun(InHand(w, p)) then s.begun + {p.index} else s.begun)
    requires IsStarted(InHand(w, s.workers[w])) ==> IsStarted(InHand(w, p))
    requires IsBegun(InHand(w, s.workers[w])) ==> IsBegun(InHand(w, p))
    requires p.Late? ==> s.expired
    ensures Inv(n, t)
  {
    assert WorkerOk(s, w);
    forall i: nat | i < |t.stage| ensures TargetOk(t, i) { assert TargetOk(s, i); }
    forall v: nat | v < |t.workers| ensures WorkerOk(t, v) { assert WorkerOk(s, v); }
  }

  /** The target in the hands of `w` gets its outcome. */
  lemma WriteStep(n: nat, s: State, t: State, w: nat, i: nat, outcome: TargetOutcome, stage: Stage)
    requires Inv(n, s) && w < |s.workers| && HasIndex(s.workers[w]) && i == s.workers[w].index && i < |s.stage|
    requires t == Wrote(s, w, i, outcome, stage)
    requires IsWritten(stage) && SlotOk(stage, Some(outcome), s.expired)
    requires IsStarted(s.stage[i]) && (IsBegun(s.stage[i]) <==> IsBegun(stage))
    ensures Inv(n, t)
  {
    assert WorkerOk(s, w) && TargetOk(s, i);
    forall j: nat | j < |t.stage| ensures TargetOk(t, j) { assert TargetOk(s, j); }
    forall v: nat | v < |t.workers| ensures WorkerOk(t, v) { assert WorkerOk(s, v); }
  }

  lemma FailedStep(n: nat, s: State, t: State, w: nat)
    requires Inv(n, s) && Fits(s) && w < |s.workers| && FailStep(s, t, w)
    ensures Inv(n, t)
  {
    assert WorkerOk(s, w);
    forall i: nat | i < |t.stage| ensures TargetOk(t, i) { assert TargetOk(s, i); }
    forall v: nat | v < |t.workers| ensures WorkerOk(t, v) { assert WorkerOk(s, v); }
  }

  lemma WorkerKeepsInv(n: nat, s: State, t: State, w: nat)
    requires Inv(n, s) && Fits(s) && w < |s.workers| && WorkerStep(s, t, w)
    ensures Inv(n, t)
  {
    assert WorkerOk(s, w);
    var p := s.workers[w];
    if HasIndex(p) { assert TargetOk(s, p.index) && s.stage[p.index].phase == p; }
    hide Inv, TargetOk, WorkerOk;
    match p
    case AtLoop => IdleMove(n, s, t, w, if s.failures == 0 then Fetching else Stopped);
    case Fetching => if s.queue == [] { IdleMove(n, s, t, w, Stopped); } else { TakeStep(n, s, t, w); }
    case Holding(i) => HandMove(n, s, t, w, Marked(i));
    case Marked(i) => HandMove(n, s, t, w, if s.expired then Late(i) else Inspecting(i));
    case Inspecting(i) =>
      var report :| t == Wrote(s, w, i, Inspected(report), Reported);
      WriteStep(n, s, t, w, i, Inspected(report), Reported);
    case Late(i) => WriteStep(n, s, t, w, i, TimeLimitSkip, Skipped);
  }

  /** All workers stopped and none failed: every slot is written. */
  lemma AllWritten(n: nat, s: State)
    requires Inv(n, s) && s.failures == 0 && forall w: nat | w < |s.workers| :: s.workers[w].Stopped?
    ensures NoGap(s.outcomes)
  {
    forall i: nat | i < |s.outcomes| ensures s.outcomes[i].Some? {
      assert TargetOk(s, i);
      assert WorkerOk(s, 0);
    }
  }

  lemma CopyIsHonestNow(n: nat, s: State, finished: seq<Option<TargetOutcome>>)
    requires Inv(n, s) && CopyOf(finished, s.outcomes)
    ensures CopyIsHonest(finished, s.begun) && forall i: nat | i < |finished| && finished[i].Some? :: i in s.started
  {
    forall i: nat | i < |finished| && finished[i].Some?
      ensures i in s.started
      ensures (finished[i].value.Inspected? && i in s.begun) || (finished[i].value.TimeLimitSkip? && i !in s.begun)
    {
      assert TargetOk(s, i);
    }
  }

  lemma BegunIsStarted(n: nat, s: State)
    requires Inv(n, s)
    ensures s.begun <= s.started
  {
    forall i | i in s.begun ensures i in s.started { assert TargetOk(s, i); }
  }

  lemma MainKeepsInv(n: nat, s: State, t: State)
    requires Inv(n, s) && MainStep(s, t)
    ensures Inv(n, t)
  {
    forall i: nat | i < |t.stage| ensures TargetOk(t, i) { assert TargetOk(s, i); }
    forall v: nat | v < |t.workers| ensures WorkerOk(t, v) { assert WorkerOk(s, v); }
    assert MainOk(t) by {
      if s.main.Checked? && !s.timedOut && s.failures == 0 { AllWritten(n, s); }
      if s.main.CopiedOutcomes? {
        CopyIsHonestNow(n, s, s.main.finished);
        BegunIsStarted(n, s);
      }
    }
  }

  lemma ClockKeepsInv(n: nat, s: State, t: State)
    requires Inv(n, s) && ClockStep(s, t)
    ensures Inv(n, t)
  {
    forall i: nat | i < |t.stage| ensures TargetOk(t, i) { assert TargetOk(s, i); }
    forall v: nat | v < |t.workers| ensures WorkerOk(t, v) { assert WorkerOk(s, v); }
  }

  // ----- whole runs

  ghost predicate IsRun(n: nat, run: seq<State>) {
    && run != [] && run[0] == Initial(n)
    && forall i | 0 <= i < |run| - 1 :: Next(run[i], run[i + 1])
  }

  lemma NextKeepsInv(n: nat, s: State, t: State)
    requires Inv(n, s) && Next(s, t)
    ensures Inv(n, t)
  {
    hide Inv, WorkerStep, FailStep;
    if MainStep(s, t) {
      MainKeepsInv(n, s, t);
    } else if ClockStep(s, t) {
      ClockKeepsInv(n, s, t);
    } else {
      var w: nat :| ThreadStep(s, t, w);
      if WorkerStep(s, t, w) { WorkerKeepsInv(n, s, t, w); } else { FailedStep(n, s, t, w); }
    }
  }

  lemma {:induction false} RunsKeepInv(n: nat, run: seq<State>)
    requires IsRun(n, run)
    ensures forall s | s in run :: Inv(n, s)
    decreases |run|
  {
    hide Inv, Next;
    if |run| == 1 {
      InitialInv(n);
    } else {
      var init := run[..|run| - 1];
      assert Next(run[|run| - 2], run[|run| - 1]);
      RunsKeepInv(n, init);
      assert run[|run| - 2] == init[|init| - 1];
      NextKeepsInv(n, run[|run| - 2], run[|run| - 1]);
      assert run == init + [run[|run| - 1]];
    }
  }

  /** The list `inspect_targets` returns, built from its two copies. */
  function Results(finished: seq<Option<TargetOutcome>>, startedIndexes: set<nat>): (r: seq<TargetOutcome>)
    ensures |r| == |finished|
  {
    seq(|finished|, i requires 0 <= i < |finished| =>
      if finished[i].Some? then finished[i].value
      else if i in startedIndexes then TimeLimitError else TimeLimitSkip)
  }

  /** In every reachable state indexes leave the queue once and in order, and slots are written once. */
  lemma EachTargetOnce(n: nat, run: seq<State>, s: State)
    requires IsRun(n, run) && s in run
    ensures s.dequeued + s.queue == seq(n, i => i)
    ensures Distinct(s.written) && forall i | i in s.written :: i in s.dequeued && i in s.started
  {
    RunsKeepInv(n, run);
    assert Inv(n, s);
    forall i | i in s.written ensures i in s.dequeued && i in s.started {
      assert TargetOk(s, i);
      assert s.dequeued[i] == i;
    }
  }

  /** What the returned list says about each target, under every interleaving. */
  lemma ResultsAreHonest(n: nat, run: seq<State>)
    requires IsRun(n, run) && run[|run| - 1].main.Returned?
    ensures
      var s := run[|run| - 1];
      var results := Results(s.main.finished, s.main.startedIndexes);
      && |results| == n == |s.outcomes|
      && (forall i: nat | i < n :: s.main.finished[i].Some? ==> s.outcomes[i] == Some(results[i]))
      && (forall i: nat | i < n :: results[i].Inspected? ==> i in s.main.begunAtCopy)
      && (forall i: nat | i < n :: results[i].TimeLimitSkip? ==> i !in s.main.begunAtCopy)
      && (forall i: nat | i < n :: results[i].TimeLimitError? <==>
            s.main.finished[i].None? && i in s.main.startedIndexes)
  {
    var s := run[|run| - 1];
    RunsKeepInv(n, run);
    assert Inv(n, s);
    hide TargetsOk;
    var finished := s.main.finished;
    forall i: nat | i < n && finished[i].Some?
      ensures finished[i] == s.outcomes[i] && !finished[i].value.TimeLimitError?
      ensures finished[i].value.Inspected? ==> i in s.main.begunAtCopy
      ensures finished[i].value.TimeLimitSkip? ==> i !in s.main.begunAtCopy
    {}
  }

  /** When every worker is joined in time and none fails, every target has its own outcome. */
  lemma NoFallbackWithoutTimeout(n: nat, run: seq<State>)
    requires IsRun(n, run) && run[|run| - 1].main.Returned?
    requires !run[|run| - 1].timedOut && run[|run| - 1].failures == 0
    ensures NoGap(run[|run| - 1].main.finished)
  {
    RunsKeepInv(n, run);
    assert Inv(n, run[|run| - 1]);
  }

  // ----- termination

  function Rank(p: Phase): nat {
    match p
    case Stopped => 0
    case Fetching => 1
    case AtLoop => 2
    case Inspecting(_) => 3
    case Late(_) => 3
    case Marked(_) => 4
    case Holding(_) => 5
  }

  function RankSum(workers: seq<Phase>): nat {
    if workers == [] then 0 else Rank(workers[0]) + RankSum(workers[1..])
  }

  lemma {:induction false} RankSumUpdate(workers: seq<Phase>, w: nat, p: Phase)
    requires w < |workers|
    ensures RankSum(workers[w := p]) == RankSum(workers) - Rank(workers[w]) + Rank(p)
  {
    if w > 0 {
      assert workers[w := p][1..] == workers[1..][w - 1 := p];
      RankSumUpdate(workers[1..], w - 1, p);
    }
  }

  function MainRank(s: State): nat {
    match s.main
    case Joining(k) => 3 + (if k <= |s.workers| then |s.workers| - k else 0)
    case Checked => 2
    case CopiedOutcomes(_) => 1
    case _ => 0
  }

  function Measure(s: State): nat {
    6 * |s.queue| + RankSum(s.workers) + MainRank(s)
  }

  lemma MainUsesMeasure(n: nat, s: State, t: State)
    requires Inv(n, s) && MainStep(s, t)
    ensures Measure(t) < Measure(s)
  {
    MainIsOk(n, s);
    hide Inv, RankSum;
  }

  /** Every step of every thread uses up the measure, so a run has boundedly many of them. */
  lemma StepsUseMeasure(n: nat, s: State, t: State)
    requires Inv(n, s) && Next(s, t) && !ClockStep(s, t)
    ensures Measure(t) < Measure(s)
  {
    hide Inv, WorkerStep, FailStep, Fits, MainStep, RankSum, Rank;
    if MainStep(s, t) {
      MainUsesMeasure(n, s, t);
    } else {
      var w: nat :| ThreadStep(s, t, w);
      ThreadUsesMeasure(s, t, w);
      RankSumUpdate(s.workers, w, t.workers[w]);
    }
  }

  lemma MainIsOk(n: nat, s: State)
    requires Inv(n, s)
    ensures MainOk(s)
  {}

  lemma ThreadUsesMeasure(s: State, t: State, w: nat)
    requires ThreadStep(s, t, w)
    ensures |t.workers| == |s.workers| && t.workers == s.workers[w := t.workers[w]] && t.main == s.main
    ensures 6 * |t.queue| + Rank(t.workers[w]) < 6 * |s.queue| + Rank(s.workers[w])
  {}

  // ----- what no run does

  /** A step begins no inspection once the clock has passed the deadline, which it never goes back over. */
  lemma NoLateStep(s: State, t: State)
    requires Next(s, t) && s.expired
    ensures t.expired && t.begun == s.begun
  {}

  /** No inspection begins after the deadline has passed. */
  lemma {:induction false} NoLateStart(n: nat, run: seq<State>, i: nat, j: nat)
    requires IsRun(n, run) && i <= j < |run| && run[i].expired
    ensures run[j].expired && run[j].begun == run[i].begun
    decreases j - i
  {
    if i < j {
      NoLateStart(n, run, i, j - 1);
      assert Next(run[j - 1], run[j - 1 + 1]);
      NoLateStep(run[j - 1], run[j]);
    }
  }

  function Fetchers(workers: seq<Phase>): nat {
    if workers == [] then 0 else (if workers[0].Fetching? then 1 else 0) + Fetchers(workers[1..])
  }

  lemma {:induction false} FetchersUpdate(workers: seq<Phase>, w: nat, p: Phase)
    requires w < |workers|
    ensures Fetchers(workers[w := p]) ==
      Fetchers(workers) - (if workers[w].Fetching? then 1 else 0) + (if p.Fetching? then 1 else 0)
  {
    if w > 0 {
      assert workers[w := p][1..] == workers[1..][w - 1 := p];
      FetchersUpdate(workers[1..], w - 1, p);
    }
  }

  /** After a failure only workers already past the loop test take another target. */
  lemma FailureStep(s: State, t: State)
    requires Next(s, t) && s.failures > 0
    ensures t.failures > 0 && |t.dequeued| + Fetchers(t.workers) <= |s.dequeued| + Fetchers(s.workers)
  {
    hide Fetchers, ThreadStep;
    if w: nat :| ThreadStep(s, t, w) { ThreadAfterFailure(s, t, w); }
  }

  lemma ThreadAfterFailure(s: State, t: State, w: nat)
    requires ThreadStep(s, t, w) && s.failures > 0
    ensures t.failures > 0 && |t.dequeued| + Fetchers(t.workers) <= |s.dequeued| + Fetchers(s.workers)
  {
    hide Fetchers;
    FetchersUpdate(s.workers, w, t.workers[w]);
    assert t.workers == s.workers[w := t.workers[w]];
  }

  lemma {:induction false} FailureStopsWork(n: nat, run: seq<State>, i: nat, j: nat)
    requires IsRun(n, run) && i <= j < |run| && run[i].failures > 0
    ensures run[j].failures > 0 && |run[j].dequeued| <= |run[i].dequeued| + Fetchers(run[i].workers)
    ensures |run[j].dequeued| + Fetchers(run[j].workers) <= |run[i].dequeued| + Fetchers(run[i].workers)
    decreases j - i
  {
    hide Next, Fetchers;
    if i < j {
      FailureStopsWork(n, run, i, j - 1);
      assert Next(run[j - 1], run[j - 1 + 1]);
      FailureStep(run[j - 1], run[j]);
    }
  }

  /** The caller tested for failures after its joins and found none. */
  ghost predicate TestedClean(run: seq<State>) {
    exists i :: 0 <= i < |run| && run[i].main == Joining(|run[i].workers|) && run[i].failures == 0
  }

  lemma {:induction false} TestedBefore(n: nat, run: seq<State>, k: nat)
    requires IsRun(n, run) && k < |run|
    ensures run[k].main.Checked? || run[k].main.CopiedOutcomes? || run[k].main.Returned? ==> TestedClean(run)
    decreases k
  {
    hide Next, TestedClean;
    if k > 0 {
      TestedBefore(n, run, k - 1);
      assert Next(run[k - 1], run[k - 1 + 1]);
      RunsKeepInv(n, run);
      assert run[k - 1] in run;
      hide IsRun;
      CallerStep(n, run[k - 1], run[k]);
      if run[k - 1].main == Joining(|run[k - 1].workers|) && run[k - 1].failures == 0 { TestedAt(run, k - 1); }
    }
  }

  lemma TestedAt(run: seq<State>, k: nat)
    requires k < |run| && run[k].main == Joining(|run[k].workers|) && run[k].failures == 0
    ensures TestedClean(run)
  {}

  lemma CallerStep(n: nat, s: State, t: State)
    requires Inv(n, s) && Next(s, t)
    ensures t.main.Checked? ==> s.main.Checked? || (s.main == Joining(|s.workers|) && s.failures == 0)
    ensures t.main.CopiedOutcomes? || t.main.Returned? ==>
      s.main.Checked? || s.main.CopiedOutcomes? || s.main.Returned?
  {
    MainIsOk(n, s);
    hide Inv;
  }

  /** Results are returned only after such a test. */
  lemma ReturnsAreTested(n: nat, run: seq<State>)
    requires IsRun(n, run) && run[|run| - 1].main.Returned?
    ensures TestedClean(run)
  {
    TestedBefore(n, run, |run| - 1);
  }
}
