/** What holds of every run of ConcurrentExecutor::execute. */
module ExecutorTheorems {
  import opened Options
  import opened Counting
  import opened Completion
  import opened Executor

  // ---------- the final batch ----------

  predicate IsSucceeded(b: BatchItem) { b.status == Succeeded }
  predicate IsFailed(b: BatchItem) { b.status == Failed }
  predicate IsSuspended(b: BatchItem) { b.status == ItemSuspended }

  /** The completion reason as a function of the items alone. */
  function ReasonOf(config: CompletionConfig, items: seq<BatchItem>): CompletionReason {
    if config.minSuccessful.Some? && Count(items, IsSucceeded) >= config.minSuccessful.value then MinSuccessfulReached
    else if Exceeds(config, |items|, Count(items, IsFailed)) then FailureToleranceExceeded
    else if exists i :: 0 <= i < |items| && IsSuspended(items[i]) then Suspended
    else AllCompleted
  }

  /** The same for a constructor that was told of any number of tasks. */
  function ReasonFor(config: CompletionConfig, total: nat, items: seq<BatchItem>): CompletionReason {
    var ran, suspended := Count(items, IsSucceeded) + Count(items, IsFailed), Count(items, IsSuspended);
    if config.minSuccessful.Some? && Count(items, IsSucceeded) >= config.minSuccessful.value then MinSuccessfulReached
    else if Exceeds(config, total, Count(items, IsFailed)) then FailureToleranceExceeded
    else if ran < total <= ran + suspended then Suspended
    else AllCompleted
  }

  /** An item that has settled: its own index, a final status, a result exactly if it succeeded, an error exactly if
      it failed. */
  predicate Settled(b: BatchItem, i: nat) {
    && b.index == i
    && b.status != Pending
    && (b.result.Some? <==> b.status == Succeeded)
    && (b.error.Some? <==> b.status == Failed)
  }

  ghost predicate Faithful(setup: Setup, s: State) {
    && |s.items| == setup.tasks
    && (forall i :: 0 <= i < setup.tasks ==> Settled(s.items[i], i))
    && s.counters.successes == Count(s.items, IsSucceeded)
    && s.counters.failures == Count(s.items, IsFailed)
    && s.counters.suspended == Count(s.items, IsSuspended)
    && s.counters.completed == s.counters.successes + s.counters.failures
  }

  lemma {:induction false} CompletedSplits(pcs: seq<Pc>)
    requires forall i :: 0 <= i < |pcs| ==> pcs[i].Done?
    ensures Count(pcs, InCompleted) == Count(pcs, InSuccesses) + Count(pcs, InFailures)
  {
    if pcs != [] {
      CompletedSplits(pcs[1..]);
    }
  }

  lemma DoneItem(i: nat, pc: Pc)
    requires pc.Done?
    ensures Settled(ItemAt(i, pc), i)
    ensures InSuccesses(pc) == IsSucceeded(ItemAt(i, pc))
    ensures InFailures(pc) == IsFailed(ItemAt(i, pc))
    ensures InSuspended(pc) == IsSuspended(ItemAt(i, pc))
  {
  }

  lemma DoneIsFaithful(setup: Setup, s: State)
    requires Inv(setup, s) && AllDone(s)
    ensures Faithful(setup, s)
  {
    forall i | 0 <= i < setup.tasks
      ensures Settled(s.items[i], i)
      ensures InSuccesses(s.pcs[i]) == IsSucceeded(s.items[i])
      ensures InFailures(s.pcs[i]) == IsFailed(s.items[i])
      ensures InSuspended(s.pcs[i]) == IsSuspended(s.items[i])
    {
      assert s.items[i] == ItemAt(i, s.pcs[i]);
      DoneItem(i, s.pcs[i]);
    }
    CountAgree(s.pcs, s.items, InSuccesses, IsSucceeded);
    CountAgree(s.pcs, s.items, InFailures, IsFailed);
    CountAgree(s.pcs, s.items, InSuspended, IsSuspended);
    CompletedSplits(s.pcs);
  }

  /** Under any interleaving every slot is settled at the end and the counters are the tallies of the items. */
  lemma FinalItems(setup: Setup, run: seq<State>)
    requires IsRun(setup, run) && AllDone(run[|run| - 1])
    ensures Faithful(setup, run[|run| - 1])
  {
    RunInv(setup, run, |run| - 1);
    DoneIsFaithful(setup, run[|run| - 1]);
  }

  lemma DoneClasses(pc: Pc)
    requires pc.Done?
    ensures !(InCompleted(pc) && InSuspended(pc))
    ensures !InCompleted(pc) && !InSuspended(pc) <==> pc == Done(WasCancelled)
  {
  }

  lemma SettledCounts(setup: Setup, s: State)
    requires |s.pcs| == setup.tasks && Tallies(s) && AllDone(s)
    ensures s.counters.completed + s.counters.suspended <= setup.tasks
    ensures (exists i :: 0 <= i < setup.tasks && s.pcs[i] == Done(WasCancelled)) <==>
            s.counters.completed + s.counters.suspended < setup.tasks
  {
    hide InCompleted, InSuspended, InSuccesses, InFailures;
    forall i | 0 <= i < setup.tasks
      ensures !(InCompleted(s.pcs[i]) && InSuspended(s.pcs[i]))
      ensures !InCompleted(s.pcs[i]) && !InSuspended(s.pcs[i]) <==> s.pcs[i] == Done(WasCancelled)
    {
      DoneClasses(s.pcs[i]);
    }
    CountDisjoint(s.pcs, InCompleted, InSuspended);
  }

  ghost predicate NoneCancelled(items: seq<BatchItem>) {
    forall i :: 0 <= i < |items| ==> items[i].status != Cancelled
  }

  /** The end of a batch, as one predicate on the state and what execute makes of it. */
  ghost predicate FinalBatch(setup: Setup, s: State) {
    var b := Finish(setup, s);
    && b.items == s.items
    && b.reason == ReasonFor(setup.config, setup.total, b.items)
    && (b.reason == Suspended || b.reason == AllCompleted ==>
          NoneCancelled(b.items) || setup.total <= s.counters.completed + s.counters.suspended < setup.tasks)
    && (setup.total == setup.tasks ==>
          && Decided(setup.config, setup.total, s.counters)
          && b.reason == ReasonOf(setup.config, b.items)
          && (b.reason == Suspended || b.reason == AllCompleted ==> NoneCancelled(b.items)))
  }

  /** Without a threshold met, an item is cancelled at the end exactly if not all tasks were recorded, and then the
      constructor was told of no more tasks than were. */
  lemma CancelledUntriggered(setup: Setup, s: State)
    requires Inv(setup, s) && AllDone(s) && !Triggered(setup.config, setup.total, s.counters)
    ensures NoneCancelled(s.items) <==> s.counters.completed + s.counters.suspended == setup.tasks
    ensures !NoneCancelled(s.items) ==> setup.total <= s.counters.completed + s.counters.suspended < setup.tasks
  {
    hide Tallies, MutexInv, Permits, Decided;
    forall i | 0 <= i < setup.tasks
      ensures s.items[i].status == Cancelled <==> s.pcs[i] == Done(WasCancelled)
    {
      assert s.items[i] == ItemAt(i, s.pcs[i]);
    }
    SettledCounts(setup, s);
    if !NoneCancelled(s.items) {
      var i :| 0 <= i < setup.tasks && s.pcs[i] == Done(WasCancelled);
      assert Caused(setup, s.counters, s.pcs[i]);
      UntriggeredDecision(setup, s.counters);
    }
  }

  lemma UntriggeredDecision(setup: Setup, c: Counters)
    requires Decided(setup.config, setup.total, c) && !Triggered(setup.config, setup.total, c)
    ensures setup.total <= c.completed + c.suspended
  {
  }

  lemma DoneBatch(setup: Setup, s: State)
    requires setup.tasks > 0 && Inv(setup, s) && AllDone(s)
    ensures FinalBatch(setup, s)
  {
    DoneIsFaithful(setup, s);
    ExceededExactly(setup.config, setup.total, s.counters.failures);
    CountZero(s.items, IsSuspended);
    SettledCounts(setup, s);
    if !Triggered(setup.config, setup.total, s.counters) {
      CancelledUntriggered(setup, s);
    }
    hide Inv;
  }

  /** The reason is a function of the items and the number given to the constructor. A Suspended or AllCompleted batch
      has a cancelled item only if that number was too small. If it is the number of tasks, the last should_complete
      always decides, so the fallback AllCompleted is never used, and what it decides is ReasonOf the items. */
  lemma FinalReason(setup: Setup, run: seq<State>)
    requires setup.tasks > 0 && IsRun(setup, run) && AllDone(run[|run| - 1])
    ensures FinalBatch(setup, run[|run| - 1])
  {
    RunInv(setup, run, |run| - 1);
    DoneBatch(setup, run[|run| - 1]);
  }

  /** The fallback of the last line of execute is taken exactly if the constructor was told of more tasks than execute
      got and neither threshold was met. */
  lemma FallbackExactly(setup: Setup, run: seq<State>)
    requires IsRun(setup, run) && AllDone(run[|run| - 1])
    ensures var c := run[|run| - 1].counters;
            !Decided(setup.config, setup.total, c) <==>
            setup.total > setup.tasks && !Triggered(setup.config, setup.total, c)
  {
    var s := run[|run| - 1];
    RunInv(setup, run, |run| - 1);
    SettledCounts(setup, s);
    if exists i :: 0 <= i < setup.tasks && s.pcs[i] == Done(WasCancelled) {
      var i :| 0 <= i < setup.tasks && s.pcs[i] == Done(WasCancelled);
      assert Caused(setup, s.counters, s.pcs[i]);
    }
  }

  /** The empty batch skips the decision: it is AllCompleted even if no item at all meets min_successful or exceeds the
      tolerance, and only then is the reason not the one of its items. */
  lemma EmptyBatch(setup: Setup, run: seq<State>)
    requires setup.tasks == 0 && IsRun(setup, run)
    ensures AllDone(run[|run| - 1]) && Finish(setup, run[|run| - 1]) == BatchResult([], AllCompleted)
    ensures ReasonFor(setup.config, setup.total, []) == AllCompleted <==>
            setup.config.minSuccessful != Some(0) && !Exceeds(setup.config, setup.total, 0)
  {
    RunInv(setup, run, |run| - 1);
  }

  /** An item is cancelled only because min_successful or the failure tolerance was met. The all-done branch cancels
      only if the constructor was told of fewer tasks than execute got. */
  lemma CancelledOnlyByThreshold(setup: Setup, run: seq<State>, j: nat, i: nat)
    requires IsRun(setup, run) && j < |run|
    requires i < |run[j].items| && run[j].items[i].status == Cancelled
    ensures var c := run[j].counters;
            Triggered(setup.config, setup.total, c) || setup.total <= c.completed + c.suspended < setup.tasks
  {
    RunInv(setup, run, j);
    assert run[j].items[i] == ItemAt(i, run[j].pcs[i]);
    assert Cancelling(run[j].pcs[i]);
    NotAllDone(setup, run[j], i);
  }

  // ---------- late checks cancel ----------

  lemma {:induction false} RunGrows(setup: Setup, run: seq<State>, a: nat, b: nat)
    requires IsRun(setup, run) && a <= b < |run|
    ensures Grows(run[a].counters, run[b].counters)
    decreases b
  {
    if a < b {
      RunGrows(setup, run, a, b - 1);
      assert Next(setup, run[b - 1], run[b - 1 + 1]);
      var i: nat, body: Outcome :| Enabled(setup, run[b - 1], i) && run[b] == Advance(setup, run[b - 1], i, body);
      StepGrows(setup, run[b - 1], i, body);
    }
  }

  /** The torn reads of one should_complete call, whoever makes it in a run: decided when it starts loading implies
      Some, and Some implies decided when it stops. */
  lemma TornCallInRun(setup: Setup, run: seq<State>, t0: nat, t1: nat, t2: nat, t3: nat)
    requires IsRun(setup, run) && t0 <= t1 <= t2 <= t3 < |run|
    ensures var r := TornCall(setup.config, setup.total, run[t0].counters, run[t1].counters, run[t2].counters,
                              run[t3].counters);
            && (Decided(setup.config, setup.total, run[t0].counters) ==> r.Some?)
            && (r.Some? ==> Decided(setup.config, setup.total, run[t3].counters))
  {
    var trace := seq(|run|, j requires 0 <= j < |run| => run[j].counters);
    forall j | 0 <= j < |trace| - 1
      ensures Grows(trace[j], trace[j + 1])
    {
      RunGrows(setup, run, j, j + 1);
    }
    TornReadSandwich(setup.config, setup.total, trace, t0, t1, t2, t3);
  }

  /** The task has not run its body and cannot come to: its check is doomed or has come out as Some. */
  predicate WillCancel(setup: Setup, s: State, i: nat)
    requires i < |s.pcs|
  {
    match s.pcs[i]
    case Waiting => Decided(setup.config, setup.total, s.counters)
    case Checking(l) => Doomed(setup.config, setup.total, s.counters, l)
    case _ => Cancelling(s.pcs[i])
  }

  lemma StepKeepsWillCancel(setup: Setup, s: State, i: nat, body: Outcome, j: nat)
    requires Enabled(setup, s, i) && j < |s.pcs| && WillCancel(setup, s, j)
    ensures WillCancel(setup, Advance(setup, s, i, body), j)
  {
    var t := Advance(setup, s, i, body);
    StepGrows(setup, s, i, body);
    DecisionMonotone(setup.config, setup.total, s.counters, t.counters);
    if s.pcs[j].Checking? {
      if i == j {
        if !s.pcs[j].l.Returned? {
          LoadKeepsDoomed(setup.config, setup.total, s.counters, s.pcs[j].l);
        }
      } else {
        GrowthKeepsLoads(setup.config, setup.total, s.counters, t.counters, s.pcs[j].l);
      }
    }
  }

  lemma {:induction false} WillCancelForever(setup: Setup, run: seq<State>, a: nat, b: nat, i: nat)
    requires IsRun(setup, run) && a <= b < |run| && i < setup.tasks && |run[a].pcs| == setup.tasks
    requires WillCancel(setup, run[a], i)
    ensures |run[b].pcs| == setup.tasks && WillCancel(setup, run[b], i)
    decreases b
  {
    if a < b {
      WillCancelForever(setup, run, a, b - 1, i);
      assert Next(setup, run[b - 1], run[b - 1 + 1]);
      var k: nat, body: Outcome :| Enabled(setup, run[b - 1], k) && run[b] == Advance(setup, run[b - 1], k, body);
      StepKeepsWillCancel(setup, run[b - 1], k, body, i);
    }
  }

  /** Torn reads never let a late task through: one that has loaded nothing when the batch is decided does not run its
      body, and if it gets to write its slot it writes Cancelled. */
  lemma LateTaskIsCancelled(setup: Setup, run: seq<State>, a: nat, b: nat, i: nat)
    requires IsRun(setup, run) && a <= b < |run| && i < setup.tasks
    requires |run[a].pcs| == setup.tasks && (run[a].pcs[i].Waiting? || run[a].pcs[i] == Checking(AtCompleted))
    requires Decided(setup.config, setup.total, run[a].counters)
    ensures |run[b].pcs| == |run[b].items| == setup.tasks && !run[b].pcs[i].Running?
    ensures run[b].items[i] in {PendingItem(i), CancelledItem(i)}
    ensures run[b].pcs[i].Done? ==> run[b].items[i] == CancelledItem(i)
  {
    WillCancelForever(setup, run, a, b, i);
    RunInv(setup, run, b);
    assert run[b].items[i] == ItemAt(i, run[b].pcs[i]);
  }

  /** When zero counters already decide the batch, every task is cancelled. */
  lemma DecidedFromTheStart(setup: Setup, run: seq<State>)
    requires IsRun(setup, run) && AllDone(run[|run| - 1]) && Decided(setup.config, setup.total, ZERO)
    ensures Count(run[|run| - 1].items, IsSucceeded) == 0 == Count(run[|run| - 1].items, IsFailed)
  {
    var s := run[|run| - 1];
    RunInv(setup, run, |run| - 1);
    forall i: nat | i < setup.tasks
      ensures s.items[i] == CancelledItem(i)
    {
      LateTaskIsCancelled(setup, run, 0, |run| - 1, i);
    }
    CountZero(s.items, IsSucceeded);
    CountZero(s.items, IsFailed);
  }

  /** Nothing is run for min_successful = 0: no item succeeds or fails. */
  lemma ZeroAskedNoneRun(setup: Setup, run: seq<State>)
    requires IsRun(setup, run) && AllDone(run[|run| - 1]) && setup.config.minSuccessful == Some(0)
    ensures Count(run[|run| - 1].items, IsSucceeded) == 0 == Count(run[|run| - 1].items, IsFailed)
  {
    DecidedFromTheStart(setup, run);
  }

  // ---------- overshoot ----------

  /** How many tasks may hold a permit at once. */
  function Capacity(setup: Setup): nat {
    if setup.maxConcurrency.Some? && setup.maxConcurrency.value < setup.tasks then setup.maxConcurrency.value
    else setup.tasks
  }

  lemma HoldersBounded(setup: Setup, s: State)
    requires Inv(setup, s)
    ensures Count(s.pcs, HoldsPermit) <= Capacity(setup)
  {
    CountDisjoint(s.pcs, HoldsPermit, (pc: Pc) => false);
  }

  /** The task may still raise success_count although it already stands at the threshold or above. */
  predicate MaySucceed(pc: Pc) {
    || (pc.Checking? && (pc.l.AtFailures? || pc.l == Returned(None)))
    || pc.Running?
    || ((pc.RecordLock? || pc.RecordWrite? || pc.RecordFirst? || pc.RecordSecond?) && pc.o.Ok?)
  }

  /** The same for failure_count. */
  predicate MayFail(pc: Pc) {
    || (pc.Checking? && pc.l == Returned(None))
    || pc.Running?
    || ((pc.RecordLock? || pc.RecordWrite? || pc.RecordFirst? || pc.RecordSecond?) && pc.o.Err?)
  }

  ghost predicate SuccessBudget(setup: Setup, s: State, m: nat) {
    s.counters.successes >= m ==> s.counters.successes + Count(s.pcs, MaySucceed) <= m + Capacity(setup) - 1
  }

  ghost predicate FailureBudget(setup: Setup, s: State, f: nat) {
    s.counters.failures >= f ==> s.counters.failures + Count(s.pcs, MayFail) <= f + Capacity(setup) - 1
  }

  lemma BudgetHoldersBounded(setup: Setup, s: State)
    requires Inv(setup, s)
    ensures Count(s.pcs, MaySucceed) <= Capacity(setup)
    ensures Count(s.pcs, MayFail) <= Capacity(setup)
  {
    HoldersBounded(setup, s);
    CountMono(s.pcs, MaySucceed, HoldsPermit);
    CountMono(s.pcs, MayFail, HoldsPermit);
  }

  /** A success is counted only by a task that then leaves the budget, and nobody joins once m is reached. */
  lemma SuccessMoves(setup: Setup, s: State, i: nat, body: Outcome, m: nat)
    requires Enabled(setup, s, i) && setup.config.minSuccessful == Some(m)
    ensures var t := Advance(setup, s, i, body);
            && t.pcs == s.pcs[i := NextPc(setup, s, i, body)]
            && (t.counters.successes == s.counters.successes
                || (t.counters.successes == s.counters.successes + 1 && MaySucceed(s.pcs[i]) && !MaySucceed(t.pcs[i])))
            && (s.counters.successes >= m && MaySucceed(t.pcs[i]) ==> MaySucceed(s.pcs[i]))
  {
  }

  lemma StepSuccessBudget(setup: Setup, s: State, i: nat, body: Outcome, m: nat)
    requires Enabled(setup, s, i) && Inv(setup, s) && setup.config.minSuccessful == Some(m)
    requires SuccessBudget(setup, s, m)
    ensures SuccessBudget(setup, Advance(setup, s, i, body), m)
  {
    SuccessMoves(setup, s, i, body, m);
    CountUpdate(s.pcs, i, NextPc(setup, s, i, body), MaySucceed);
    BudgetHoldersBounded(setup, s);
  }

  lemma FailureMoves(setup: Setup, s: State, i: nat, body: Outcome, f: nat)
    requires Enabled(setup, s, i) && Shape(setup, s) && FailureToleranceExceededAt(setup.config, setup.total, f)
    ensures var t := Advance(setup, s, i, body);
            && t.pcs == s.pcs[i := NextPc(setup, s, i, body)]
            && (t.counters.failures == s.counters.failures
                || (t.counters.failures == s.counters.failures + 1 && MayFail(s.pcs[i]) && !MayFail(t.pcs[i])))
            && (s.counters.failures >= f && MayFail(t.pcs[i]) ==> MayFail(s.pcs[i]))
  {
    if s.counters.failures >= f {
      FailureExceededMonotone(setup.config, setup.total, f, s.counters.failures);
    }
  }

  lemma StepFailureBudget(setup: Setup, s: State, i: nat, body: Outcome, f: nat)
    requires Enabled(setup, s, i) && Inv(setup, s) && FailureToleranceExceededAt(setup.config, setup.total, f)
    requires FailureBudget(setup, s, f)
    ensures FailureBudget(setup, Advance(setup, s, i, body), f)
  {
    FailureMoves(setup, s, i, body, f);
    CountUpdate(s.pcs, i, NextPc(setup, s, i, body), MayFail);
    BudgetHoldersBounded(setup, s);
  }

  lemma {:induction false} SuccessOvershoot(setup: Setup, run: seq<State>, j: nat, m: nat)
    requires IsRun(setup, run) && j < |run| && setup.config.minSuccessful == Some(m) && Capacity(setup) >= 1
    ensures SuccessBudget(setup, run[j], m)
    ensures run[j].counters.successes <= m + Capacity(setup) - 1
  {
    if j == 0 {
      CountZero(run[0].pcs, MaySucceed);
    } else {
      SuccessOvershoot(setup, run, j - 1, m);
      RunInv(setup, run, j - 1);
      assert Next(setup, run[j - 1], run[j - 1 + 1]);
      var i: nat, body: Outcome :| Enabled(setup, run[j - 1], i) && run[j] == Advance(setup, run[j - 1], i, body);
      StepSuccessBudget(setup, run[j - 1], i, body, m);
    }
  }

  /** f is any number of failures that exceeds the tolerance. */
  lemma {:induction false} FailureOvershoot(setup: Setup, run: seq<State>, j: nat, f: nat)
    requires IsRun(setup, run) && j < |run| && Capacity(setup) >= 1
    requires Exceeds(setup.config, setup.total, f)
    ensures FailureBudget(setup, run[j], f)
    ensures run[j].counters.failures <= f + Capacity(setup) - 1
  {
    ExceededExactly(setup.config, setup.total, f);
    if j == 0 {
      CountZero(run[0].pcs, MayFail);
    } else {
      FailureOvershoot(setup, run, j - 1, f);
      RunInv(setup, run, j - 1);
      assert Next(setup, run[j - 1], run[j - 1 + 1]);
      var i: nat, body: Outcome :| Enabled(setup, run[j - 1], i) && run[j] == Advance(setup, run[j - 1], i, body);
      StepFailureBudget(setup, run[j - 1], i, body, f);
    }
  }

  /** With max_concurrency = k: at most m + k - 1 items succeed and at most t + k fail. */
  lemma FinalOvershoot(setup: Setup, run: seq<State>, k: nat)
    requires IsRun(setup, run) && AllDone(run[|run| - 1]) && setup.maxConcurrency == Some(k) && k >= 1
    ensures setup.config.minSuccessful.Some? ==>
              Count(run[|run| - 1].items, IsSucceeded) <= setup.config.minSuccessful.value + k - 1
    ensures setup.config.toleratedFailureCount.Some? ==>
              Count(run[|run| - 1].items, IsFailed) <= setup.config.toleratedFailureCount.value + k
  {
    FinalItems(setup, run);
    if setup.tasks > 0 {
      if setup.config.minSuccessful.Some? {
        SuccessOvershoot(setup, run, |run| - 1, setup.config.minSuccessful.value);
      }
      if setup.config.toleratedFailureCount.Some? {
        FailureOvershoot(setup, run, |run| - 1, setup.config.toleratedFailureCount.value + 1);
      }
    } else {
      assert run[|run| - 1].items == [];
    }
  }

  /** Under a share p of tolerated failures: at most p * total_tasks + k items fail, and none for a negative share. */
  lemma FinalShare(setup: Setup, run: seq<State>, k: nat, p: real)
    requires IsRun(setup, run) && AllDone(run[|run| - 1]) && setup.maxConcurrency == Some(k) && k >= 1
    requires setup.config.toleratedFailurePercentage == Some(p) && setup.total > 0
    ensures p >= 0.0 ==> Count(run[|run| - 1].items, IsFailed) as real <= p * setup.total as real + k as real
    ensures p < 0.0 ==> Count(run[|run| - 1].items, IsFailed) == 0
  {
    FinalItems(setup, run);
    var failed := Count(run[|run| - 1].items, IsFailed);
    if setup.tasks == 0 {
      assert run[|run| - 1].items == [];
      NotNegative(p, setup.total);
    } else if p < 0.0 {
      ExceededByNothing(setup.config, setup.total);
      DecidedFromTheStart(setup, run);
    } else {
      NotNegative(p, setup.total);
      if failed as real > p * setup.total as real + k as real {
        assert (failed - k) as real > p * setup.total as real;
        FailureOvershoot(setup, run, |run| - 1, failed - k);
      }
    }
  }

  lemma NotNegative(p: real, n: nat)
    ensures p >= 0.0 ==> p * n as real >= 0.0
  {
  }

  // ---------- permits, mutex, progress, termination ----------

  /** Slots are written before the counters, under the mutex: at any moment the counters agree with the slots but for the
      one task, if any, that is inside the mutex. */
  lemma CountersTrailSlots(setup: Setup, run: seq<State>, j: nat)
    requires IsRun(setup, run) && j < |run|
    ensures var s := run[j];
            var succeeded, failed, suspended :=
              Count(s.items, IsSucceeded), Count(s.items, IsFailed), Count(s.items, IsSuspended);
            && s.counters.successes <= succeeded && s.counters.failures <= failed && s.counters.suspended <= suspended
            && succeeded + failed + suspended <=
               s.counters.successes + s.counters.failures + s.counters.suspended + (if s.mutex.Some? then 1 else 0)
            && s.counters.completed <= succeeded + failed <= s.counters.completed + 1
  {
    RunInv(setup, run, j);
    SlotsOf(setup, run[j]);
  }

  /** The slot is written and not all increments are made. */
  predicate Trailing(pc: Pc) { pc.RecordFirst? || pc.RecordSecond? }
  predicate Unfinished(pc: Pc) { pc.RecordFirst? && !pc.o.Suspend? }

  lemma SlotClass(i: nat, pc: Pc)
    requires pc.RecordSecond? ==> !pc.o.Suspend?
    ensures One(IsSucceeded(ItemAt(i, pc))) == One(InSuccesses(pc)) + One(Trailing(pc) && pc.o.Ok?)
    ensures One(IsFailed(ItemAt(i, pc))) == One(InFailures(pc)) + One(Trailing(pc) && pc.o.Err?)
    ensures One(IsSuspended(ItemAt(i, pc))) == One(InSuspended(pc)) + One(Trailing(pc) && pc.o.Suspend?)
    ensures One(IsSucceeded(ItemAt(i, pc))) + One(IsFailed(ItemAt(i, pc))) == One(InCompleted(pc)) + One(Unfinished(pc))
    ensures One(IsSucceeded(ItemAt(i, pc))) + One(IsFailed(ItemAt(i, pc))) + One(IsSuspended(ItemAt(i, pc))) ==
            One(InSuccesses(pc)) + One(InFailures(pc)) + One(InSuspended(pc)) + One(Trailing(pc))
    ensures Trailing(pc) ==> InMutex(pc)
  {
  }

  lemma {:induction false} SlotCounts(items: seq<BatchItem>, pcs: seq<Pc>, start: nat)
    requires |items| == |pcs|
    requires forall i :: 0 <= i < |pcs| ==> items[i] == ItemAt(start + i, pcs[i]) && (pcs[i].RecordSecond? ==> !pcs[i].o.Suspend?)
    ensures Count(pcs, InSuccesses) <= Count(items, IsSucceeded) && Count(pcs, InFailures) <= Count(items, IsFailed)
    ensures Count(pcs, InSuspended) <= Count(items, IsSuspended)
    ensures Count(items, IsSucceeded) + Count(items, IsFailed) + Count(items, IsSuspended) ==
            Count(pcs, InSuccesses) + Count(pcs, InFailures) + Count(pcs, InSuspended) + Count(pcs, Trailing)
    ensures Count(items, IsSucceeded) + Count(items, IsFailed) == Count(pcs, InCompleted) + Count(pcs, Unfinished)
  {
    hide InSuccesses, InFailures, InSuspended, InCompleted, ItemAt, Trailing, Unfinished, IsSucceeded, IsFailed, IsSuspended;
    if pcs != [] {
      SlotClass(start, pcs[0]);
      assert items[0] == ItemAt(start + 0, pcs[0]);
      forall i | 0 <= i < |pcs| - 1
        ensures items[1..][i] == ItemAt(start + 1 + i, pcs[1..][i])
      {
        assert items[i + 1] == ItemAt(start + (i + 1), pcs[i + 1]);
      }
      SlotCounts(items[1..], pcs[1..], start + 1);
    }
  }

  lemma SlotsOf(setup: Setup, s: State)
    requires Inv(setup, s)
    ensures var succeeded, failed, suspended :=
              Count(s.items, IsSucceeded), Count(s.items, IsFailed), Count(s.items, IsSuspended);
            && s.counters.successes <= succeeded && s.counters.failures <= failed && s.counters.suspended <= suspended
            && succeeded + failed + suspended <=
               s.counters.successes + s.counters.failures + s.counters.suspended + (if s.mutex.Some? then 1 else 0)
            && s.counters.completed <= succeeded + failed <= s.counters.completed + 1
  {
    SlotCounts(s.items, s.pcs, 0);
    CountMono(s.pcs, Trailing, InMutex);
    CountMono(s.pcs, Unfinished, Trailing);
    AtMostOne(s.pcs, InMutex);
    CountZero(s.pcs, InMutex);
  }

  predicate InBody(pc: Pc) { pc.Running? }

  /** Permits are conserved, so at most k bodies run at once, and at most one task is inside the results mutex. */
  lemma ConcurrencyBound(setup: Setup, run: seq<State>, j: nat)
    requires IsRun(setup, run) && j < |run|
    ensures setup.maxConcurrency.Some? ==> run[j].free + Count(run[j].pcs, HoldsPermit) == setup.maxConcurrency.value
    ensures setup.maxConcurrency.Some? ==> Count(run[j].pcs, InBody) <= setup.maxConcurrency.value
    ensures Count(run[j].pcs, InMutex) <= 1
  {
    RunInv(setup, run, j);
    CountMono(run[j].pcs, InBody, HoldsPermit);
    AtMostOne(run[j].pcs, InMutex);
  }

  lemma {:induction false} AtMostOne<A>(s: seq<A>, p: A -> bool)
    requires forall i, j :: 0 <= i < j < |s| ==> !(p(s[i]) && p(s[j]))
    ensures Count(s, p) <= 1
  {
    if s != [] {
      if p(s[0]) {
        CountZero(s[1..], p);
      } else {
        AtMostOne(s[1..], p);
      }
    }
  }

  /** Some task can step, unless all are done or there never was a permit. */
  lemma SomeTaskEnabled(setup: Setup, s: State)
    requires Inv(setup, s) && !AllDone(s) && setup.maxConcurrency != Some(0)
    ensures exists i: nat :: Enabled(setup, s, i)
  {
    if s.mutex.Some? {
      assert Enabled(setup, s, s.mutex.value);
    } else if exists i: nat :: i < |s.pcs| && HoldsPermit(s.pcs[i]) {
      var i: nat :| i < |s.pcs| && HoldsPermit(s.pcs[i]);
      assert Enabled(setup, s, i);
    } else {
      CountZero(s.pcs, HoldsPermit);
      var i :| 0 <= i < |s.pcs| && !s.pcs[i].Done?;
      assert Enabled(setup, s, i);
    }
  }

  /** Every reachable state short of the end has an enabled step exactly if there is a permit to take at all. */
  lemma Progress(setup: Setup, run: seq<State>, j: nat)
    requires IsRun(setup, run) && j < |run| && !AllDone(run[j])
    ensures (exists i: nat :: Enabled(setup, run[j], i)) <==> setup.maxConcurrency != Some(0)
  {
    RunInv(setup, run, j);
    if setup.maxConcurrency == Some(0) {
      CountZero(run[j].pcs, HoldsPermit);
    } else {
      SomeTaskEnabled(setup, run[j]);
    }
  }

  lemma StuckAtStart(setup: Setup, i: nat)
    requires setup.maxConcurrency == Some(0)
    ensures !Enabled(setup, Init(setup), i)
  {
  }

  /** Without a permit no one ever moves. */
  lemma NobodyMoves(setup: Setup, run: seq<State>)
    requires setup.maxConcurrency == Some(0) && IsRun(setup, run)
    ensures |run| == 1
  {
    hide Enabled, Advance, Init;
    if |run| > 1 {
      assert Next(setup, run[0], run[0 + 1]);
      var i: nat :| Enabled(setup, run[0], i);
      StuckAtStart(setup, i);
    }
  }

  /** Steps a task has left, at most. */
  function Rank(pc: Pc): nat {
    match pc
    case Waiting => 18
    case Checking(l) => 13 + LoadsLeft(l)
    case Running => 12
    case RecordLock(_) => 11
    case RecordWrite(_) => 10
    case RecordFirst(_) => 9
    case RecordSecond(_) => 8
    case RecordUnlock(_) => 7
    case Notifying(_, l) => 2 + LoadsLeft(l)
    case CancelLock => 4
    case CancelWrite => 3
    case CancelUnlock => 2
    case Leaving(_) => 1
    case Done(_) => 0
  }

  lemma StepLowersRank(setup: Setup, s: State, i: nat, body: Outcome)
    requires Enabled(setup, s, i)
    ensures Sum(Advance(setup, s, i, body).pcs, Rank) < Sum(s.pcs, Rank)
  {
    SumUpdate(s.pcs, i, NextPc(setup, s, i, body), Rank);
  }

  lemma {:induction false} InitialRank(pcs: seq<Pc>)
    requires forall i :: 0 <= i < |pcs| ==> pcs[i].Waiting?
    ensures Sum(pcs, Rank) == 18 * |pcs|
  {
    if pcs != [] {
      InitialRank(pcs[1..]);
    }
  }

  /** No run makes more than 18 steps a task, so every run ends. */
  lemma {:induction false} RunsAreShort(setup: Setup, run: seq<State>, j: nat)
    requires IsRun(setup, run) && j < |run|
    ensures j + Sum(run[j].pcs, Rank) <= 18 * setup.tasks
  {
    if j == 0 {
      InitialRank(run[0].pcs);
    } else {
      RunsAreShort(setup, run, j - 1);
      assert Next(setup, run[j - 1], run[j - 1 + 1]);
      var i: nat, body: Outcome :| Enabled(setup, run[j - 1], i) && run[j] == Advance(setup, run[j - 1], i, body);
      StepLowersRank(setup, run[j - 1], i, body);
    }
  }
}
