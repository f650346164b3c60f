/** concurrency.rs, ConcurrentExecutor as an object: its tasks update the shared fields in place, one step at a time,
    in whatever order they are scheduled. */
module ExecutorObject {
  import opened Options
  import opened Counting
  import opened Completion
  import opened Executor
  import opened ExecutorTheorems

  /** The outcomes a task carries are those of its own body. */
  ghost predicate OwnOutcomes(pcs: seq<Pc>, bodies: seq<Outcome>) {
    && |pcs| == |bodies|
    && forall i :: 0 <= i < |pcs| ==> CarriedOutcome(pcs[i]) in {None, Some(bodies[i])}
  }

  function CarriedOutcome(pc: Pc): Option<Outcome> {
    match pc
    case RecordLock(o) => Some(o)
    case RecordWrite(o) => Some(o)
    case RecordFirst(o) => Some(o)
    case RecordSecond(o) => Some(o)
    case RecordUnlock(o) => Some(o)
    case Notifying(o, _) => Some(o)
    case Leaving(Ran(o)) => Some(o)
    case Done(Ran(o)) => Some(o)
    case _ => None
  }

  lemma StepCarries(setup: Setup, s: State, i: nat, bodies: seq<Outcome>)
    requires Enabled(setup, s, i) && OwnOutcomes(s.pcs, bodies)
    ensures OwnOutcomes(Advance(setup, s, i, bodies[i]).pcs, bodies)
  {
  }

  lemma StartRun(setup: Setup, s: State, bodies: seq<Outcome>)
    requires s == Init(setup) && setup.tasks == |bodies|
    ensures IsRun(setup, [s]) && OwnOutcomes(s.pcs, bodies)
  {
  }

  /** Every item holds what its own body returned, or its body never ran. */
  ghost predicate OwnItems(items: seq<BatchItem>, bodies: seq<Outcome>) {
    && |items| == |bodies|
    && forall i :: 0 <= i < |bodies| ==> Holds(items[i], i, bodies[i]) || NeverRan(items[i], i)
  }

  /** How far successes and failures may run over their thresholds under a concurrency limit. */
  ghost predicate BoundedOvershoot(setup: Setup, items: seq<BatchItem>) {
    setup.maxConcurrency.Some? && setup.maxConcurrency.value >= 1 ==>
      var config, k := setup.config, setup.maxConcurrency.value;
      && (config.minSuccessful.Some? ==> Count(items, IsSucceeded) <= config.minSuccessful.value + k - 1)
      && (config.toleratedFailureCount.Some? ==> Count(items, IsFailed) <= config.toleratedFailureCount.value + k)
      && (config.toleratedFailurePercentage.Some? && setup.total > 0 ==>
            var p := config.toleratedFailurePercentage.value;
            if p < 0.0 then Count(items, IsFailed) == 0
            else Count(items, IsFailed) as real <= p * setup.total as real + k as real)
  }

  lemma RunsAreBounded(setup: Setup, run: seq<State>)
    requires IsRun(setup, run) && AllDone(run[|run| - 1])
    ensures BoundedOvershoot(setup, run[|run| - 1].items)
  {
    if setup.maxConcurrency.Some? && setup.maxConcurrency.value >= 1 {
      FinalOvershoot(setup, run, setup.maxConcurrency.value);
      if setup.config.toleratedFailurePercentage.Some? && setup.total > 0 {
        FinalShare(setup, run, setup.maxConcurrency.value, setup.config.toleratedFailurePercentage.value);
      }
    }
  }

  lemma EmptyIsBounded(setup: Setup)
    ensures BoundedOvershoot(setup, [])
  {
    if setup.config.toleratedFailurePercentage.Some? {
      NotNegative(setup.config.toleratedFailurePercentage.value, setup.total);
    }
  }

  /** What execute promises of the batch it returns, for bodies that return the given outcomes. */
  ghost predicate GoodBatch(setup: Setup, bodies: seq<Outcome>, b: BatchResult) {
    && OwnItems(b.items, bodies)
    && (b.reason == if |bodies| == 0 then AllCompleted else ReasonFor(setup.config, setup.total, b.items))
    && (setup.total == |bodies| > 0 ==> b.reason == ReasonOf(setup.config, b.items))
    && (|bodies| <= setup.total && (b.reason == Suspended || b.reason == AllCompleted) ==>
          forall i :: 0 <= i < |bodies| ==> Holds(b.items[i], i, bodies[i]))
    && BoundedOvershoot(setup, b.items)
  }

  lemma OwnItem(i: nat, pc: Pc, body: Outcome)
    requires pc.Done? && CarriedOutcome(pc) in {None, Some(body)}
    ensures Holds(ItemAt(i, pc), i, body) || NeverRan(ItemAt(i, pc), i)
  {
  }

  lemma RunsGiveOwnItems(setup: Setup, run: seq<State>, bodies: seq<Outcome>)
    requires setup.tasks == |bodies| && IsRun(setup, run) && AllDone(run[|run| - 1])
    requires OwnOutcomes(run[|run| - 1].pcs, bodies)
    ensures OwnItems(run[|run| - 1].items, bodies)
  {
    hide Holds, NeverRan, ItemAt, CarriedOutcome;
    var s := run[|run| - 1];
    RunInv(setup, run, |run| - 1);
    forall i | 0 <= i < |bodies|
      ensures Holds(s.items[i], i, bodies[i]) || NeverRan(s.items[i], i)
    {
      OwnItem(i, s.pcs[i], bodies[i]);
    }
  }

  lemma NoneNeverRan(items: seq<BatchItem>, bodies: seq<Outcome>)
    requires OwnItems(items, bodies) && NoneCancelled(items)
    ensures forall i :: 0 <= i < |bodies| ==> Holds(items[i], i, bodies[i])
  {
    hide Holds;
  }

  lemma RunsGiveGoodBatches(setup: Setup, run: seq<State>, bodies: seq<Outcome>)
    requires setup.tasks == |bodies| > 0 && setup.maxConcurrency != Some(0)
    requires IsRun(setup, run) && AllDone(run[|run| - 1]) && OwnOutcomes(run[|run| - 1].pcs, bodies)
    ensures GoodBatch(setup, bodies, Finish(setup, run[|run| - 1]))
  {
    assert |run| > 0;
    hide IsRun, AllDone, OwnOutcomes, OwnItems, Holds, ReasonOf, ReasonFor, NoneCancelled, BoundedOvershoot;
    var b := Finish(setup, run[|run| - 1]);
    RunsGiveOwnItems(setup, run, bodies);
    FinalReason(setup, run);
    RunsAreBounded(setup, run);
    if NoneCancelled(b.items) {
      NoneNeverRan(b.items, bodies);
    }
  }

  class ConcurrentExecutor {
    const maxConcurrency: Option<nat>
    const config: CompletionConfig
    const counters: ExecutionCounters
    var results: seq<BatchItem>
    var pcs: seq<Pc>
    var free: nat
    var mutex: Option<nat>
    var order: seq<nat>

    constructor (total: nat, maxConcurrency: Option<nat>, config: CompletionConfig)
      ensures this.maxConcurrency == maxConcurrency && this.config == config
      ensures fresh(counters) && counters.totalTasks == total && counters.View() == ZERO
      ensures free == maxConcurrency.GetOr(0)
    {
      this.maxConcurrency := maxConcurrency;
      this.config := config;
      counters := new ExecutionCounters(total);
      results, pcs, order := [], [], [];
      free := maxConcurrency.GetOr(0);
      mutex := None;
    }

    function SetupFor(tasks: nat): Setup {
      Setup(tasks, counters.totalTasks, maxConcurrency, config)
    }

    function View(): State
      reads this, counters
    {
      State(counters.View(), results, pcs, free, mutex, order)
    }

    /** One atomic step of task i. */
    method Step(tasks: nat, i: nat, body: Outcome)
      requires Enabled(SetupFor(tasks), View(), i)
      modifies this, counters
      ensures View() == Advance(SetupFor(tasks), old(View()), i, body)
    {
      hide NextLoad, ItemFor;
      match pcs[i]
      case Waiting =>
        if maxConcurrency.Some? {
          free := free - 1;
        }
        order := order + [i];
        pcs := pcs[i := Checking(AtCompleted)];
      case Checking(l) =>
        if !l.Returned? {
          pcs := pcs[i := Checking(NextLoad(config, counters.totalTasks, counters.View(), l))];
        } else {
          pcs := pcs[i := if l.reason.Some? then CancelLock else Running];
        }
      case CancelLock =>
        mutex := Some(i);
        pcs := pcs[i := CancelWrite];
      case CancelWrite =>
        results := results[i := CancelledItem(i)];
        pcs := pcs[i := CancelUnlock];
      case CancelUnlock =>
        mutex := None;
        pcs := pcs[i := Leaving(WasCancelled)];
      case Running =>
        pcs := pcs[i := RecordLock(body)];
      case RecordLock(o) =>
        mutex := Some(i);
        pcs := pcs[i := RecordWrite(o)];
      case RecordWrite(o) =>
        results := results[i := ItemFor(i, o)];
        pcs := pcs[i := RecordFirst(o)];
      case RecordFirst(o) =>
        if o.Suspend? {
          var _ := counters.SuspendTask();
          pcs := pcs[i := RecordUnlock(o)];
        } else {
          var _ := counters.AddCompleted();
          pcs := pcs[i := RecordSecond(o)];
        }
      case RecordSecond(o) =>
        if o.Ok? {
          var _ := counters.AddSuccess();
        } else {
          var _ := counters.AddFailure();
        }
        pcs := pcs[i := RecordUnlock(o)];
      case RecordUnlock(o) =>
        mutex := None;
        pcs := pcs[i := Notifying(o, AtCompleted)];
      case Notifying(o, l) =>
        if !l.Returned? {
          pcs := pcs[i := Notifying(o, NextLoad(config, counters.totalTasks, counters.View(), l))];
        } else {
          pcs := pcs[i := Leaving(Ran(o))];
        }
      case Leaving(fate) =>
        if maxConcurrency.Some? {
          free := free + 1;
        }
        pcs := pcs[i := Done(fate)];
    }

    // record_success, record_failure and record_suspend, with no one else running.

    method RecordSuccess() returns (r: Option<CompletionReason>)
      modifies counters
      ensures counters.View() ==
              old(counters.View()).(completed := old(counters.completed) + 1, successes := old(counters.successes) + 1)
      ensures r == ShouldComplete(config, counters.totalTasks, counters.View())
    {
      var _ := counters.CompleteTask();
      r := counters.ShouldCompleteNow(config);
    }

    method RecordFailure() returns (r: Option<CompletionReason>)
      modifies counters
      ensures counters.View() ==
              old(counters.View()).(completed := old(counters.completed) + 1, failures := old(counters.failures) + 1)
      ensures r == ShouldComplete(config, counters.totalTasks, counters.View())
    {
      var _ := counters.FailTask();
      r := counters.ShouldCompleteNow(config);
    }

    method RecordSuspend() returns (r: Option<CompletionReason>)
      modifies counters
      ensures counters.View() == old(counters.View()).(suspended := old(counters.suspended) + 1)
      ensures r == ShouldComplete(config, counters.totalTasks, counters.View())
    {
      var _ := counters.SuspendTask();
      r := counters.ShouldCompleteNow(config);
    }

    /** bodies[i] is what the body of task i returns, should it run; the loop takes any enabled task next, as long as there
        is one. However the tasks were scheduled, either all are done and the batch is what the theorems say, or there
        is no permit and execute waits forever, which is None. */
    method Execute(bodies: seq<Outcome>) returns (r: Option<BatchResult>)
      requires counters.View() == ZERO && free == maxConcurrency.GetOr(0)
      modifies this, counters
      ensures r.None? <==> bodies != [] && maxConcurrency == Some(0)
      ensures r.Some? ==> GoodBatch(SetupFor(|bodies|), bodies, r.value)
    {
      var n := |bodies|;
      if n == 0 {
        EmptyIsBounded(SetupFor(0));
        return Some(BatchResult([], AllCompleted));
      }
      ghost var setup := SetupFor(n);
      results := seq(n, i requires 0 <= i < n => PendingItem(i));
      pcs := seq(n, i => Waiting);
      mutex, order := None, [];
      ghost var run := [View()];
      StartRun(setup, View(), bodies);
      while exists i: nat :: i < |pcs| && Enabled(SetupFor(n), View(), i)
        invariant setup == SetupFor(n)
        invariant |run| > 0 && run[|run| - 1] == View() && IsRun(setup, run)
        invariant OwnOutcomes(pcs, bodies)
        decreases Sum(pcs, Rank)
      {
        var i: nat :| i < |pcs| && Enabled(SetupFor(n), View(), i);
        StepLowersRank(setup, View(), i, bodies[i]);
        StepCarries(setup, View(), i, bodies);
        ExtendRun(setup, run, i, bodies[i]);
        Step(n, i, bodies[i]);
        run := run + [View()];
      }
      RunInv(setup, run, |run| - 1);
      if maxConcurrency == Some(0) {
        NobodyMoves(setup, run);
        return None;
      }
      Exhausted(setup, View());
      RunsGiveGoodBatches(setup, run, bodies);
      var reason := counters.ShouldCompleteNow(config);
      r := Some(BatchResult(results, reason.GetOr(AllCompleted)));
    }
  }

  /** When no task can step and there are permits, all are done. */
  lemma Exhausted(setup: Setup, s: State)
    requires Inv(setup, s) && setup.maxConcurrency != Some(0)
    requires forall i: nat :: i < |s.pcs| ==> !Enabled(setup, s, i)
    ensures AllDone(s)
  {
    hide Inv;
    forall i: nat
      ensures !Enabled(setup, s, i)
    {
    }
    if !AllDone(s) {
      SomeTaskEnabled(setup, s);
    }
  }
}
