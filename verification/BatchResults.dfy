/** concurrency.rs, BatchResult::get_results, on the batches that execute can produce. */
module BatchResults {
  import opened Options
  import opened Counting
  import opened Completion
  import opened Executor
  import opened ExecutorTheorems

  datatype DurableError =
    | UserCode(message: string, errorType: string, stackTrace: Option<string>)
    | Execution(message: string)

  datatype Results = Values(values: seq<Value>) | Error(error: DurableError)

  /** The failed items, in order. */
  function FailedItems(items: seq<BatchItem>): seq<BatchItem> {
    if items == [] then [] else (if IsFailed(items[0]) then [items[0]] else []) + FailedItems(items[1..])
  }

  /** The results of the items that have one, in order. */
  function ResultValues(items: seq<BatchItem>): seq<Value> {
    if items == [] then []
    else (if items[0].result.Some? then [items[0].result.value] else []) + ResultValues(items[1..])
  }

  function GetResults(b: BatchResult): Results {
    if b.reason == FailureToleranceExceeded then
      var failed := FailedItems(b.items);
      if failed != [] && failed[0].error.Some? then
        var e := failed[0].error.value;
        Error(UserCode(e.message, e.errorType, e.stackTrace))
      else Error(Execution("Batch operation failed"))
    else Values(ResultValues(b.items))
  }

  ghost predicate LowestFailed(items: seq<BatchItem>, i: nat) {
    i < |items| && IsFailed(items[i]) && forall j :: 0 <= j < i ==> !IsFailed(items[j])
  }

  lemma {:induction false} FirstFailed(items: seq<BatchItem>, i: nat)
    requires LowestFailed(items, i)
    ensures FailedItems(items) != [] && FailedItems(items)[0] == items[i]
  {
    if i > 0 {
      assert !IsFailed(items[0]);
      assert forall j :: 0 <= j < i - 1 ==> items[1..][j] == items[j + 1];
      FirstFailed(items[1..], i - 1);
    }
  }

  lemma {:induction false} LowestExists(items: seq<BatchItem>)
    requires Count(items, IsFailed) > 0
    ensures exists i: nat :: LowestFailed(items, i)
  {
    if IsFailed(items[0]) {
      assert LowestFailed(items, 0);
    } else {
      LowestExists(items[1..]);
      var i: nat :| LowestFailed(items[1..], i);
      assert forall j :: 1 <= j < i + 1 ==> items[j] == items[1..][j - 1];
      assert LowestFailed(items, i + 1);
    }
  }

  lemma {:induction false} NoneFailed(items: seq<BatchItem>)
    requires Count(items, IsFailed) == 0
    ensures FailedItems(items) == []
  {
    if items != [] {
      NoneFailed(items[1..]);
    }
  }

  /** The value of a succeeded item stands behind the values of the succeeded items before it. */
  lemma {:induction false} ValuesInOrder(items: seq<BatchItem>, i: nat)
    requires forall j :: 0 <= j < |items| ==> (items[j].result.Some? <==> IsSucceeded(items[j]))
    requires i < |items| && IsSucceeded(items[i])
    ensures Count(items[..i], IsSucceeded) < |ResultValues(items)|
    ensures ResultValues(items)[Count(items[..i], IsSucceeded)] == items[i].result.value
  {
    if i > 0 {
      assert items[..i][1..] == items[1..][..i - 1];
      assert forall j :: 0 <= j < |items| - 1 ==> items[1..][j] == items[j + 1];
      ValuesInOrder(items[1..], i - 1);
    }
  }

  lemma {:induction false} AsManyValues(items: seq<BatchItem>)
    requires forall j :: 0 <= j < |items| ==> (items[j].result.Some? <==> IsSucceeded(items[j]))
    ensures |ResultValues(items)| == Count(items, IsSucceeded)
  {
    if items != [] {
      AsManyValues(items[1..]);
    }
  }

  // ---------- batches of execute ----------

  /** Unless the tolerance was exceeded, exactly the succeeded values, in index order. */
  lemma ResultsOfBatch(setup: Setup, run: seq<State>)
    requires IsRun(setup, run) && AllDone(run[|run| - 1])
    requires Finish(setup, run[|run| - 1]).reason != FailureToleranceExceeded
    ensures var b := Finish(setup, run[|run| - 1]);
            && GetResults(b).Values?
            && |GetResults(b).values| == Count(b.items, IsSucceeded) == run[|run| - 1].counters.successes
            && forall i: nat :: i < |b.items| && IsSucceeded(b.items[i]) ==>
                 && b.items[i].result.Some?
                 && Count(b.items[..i], IsSucceeded) < |GetResults(b).values|
                 && GetResults(b).values[Count(b.items[..i], IsSucceeded)] == b.items[i].result.value
  {
    FinalItems(setup, run);
    var b := Finish(setup, run[|run| - 1]);
    assert forall i :: 0 <= i < |b.items| ==> Settled(b.items[i], i);
    AsManyValues(b.items);
    forall i: nat | i < |b.items| && IsSucceeded(b.items[i])
      ensures Count(b.items[..i], IsSucceeded) < |GetResults(b).values|
      ensures GetResults(b).values[Count(b.items[..i], IsSucceeded)] == b.items[i].result.value
    {
      ValuesInOrder(b.items, i);
    }
  }

  predicate NegativePercentage(config: CompletionConfig) {
    config.toleratedFailurePercentage.Some? && config.toleratedFailurePercentage.value < 0.0
  }

  /** A batch that exceeded its tolerance reports the error of its lowest failed item, if zero failures do not
      exceed the tolerance. */
  lemma ErrorOfBatch(setup: Setup, run: seq<State>)
    requires IsRun(setup, run) && AllDone(run[|run| - 1])
    requires Finish(setup, run[|run| - 1]).reason == FailureToleranceExceeded
    requires setup.total > 0 ==> !NegativePercentage(setup.config)
    ensures var b := Finish(setup, run[|run| - 1]);
            exists i: nat :: LowestFailed(b.items, i) && b.items[i].error.Some? &&
              var e := b.items[i].error.value;
              GetResults(b) == Error(UserCode(e.message, e.errorType, e.stackTrace))
  {
    FinalItems(setup, run);
    var b := Finish(setup, run[|run| - 1]);
    ExceededByNothing(setup.config, setup.total);
    LowestExists(b.items);
    var i: nat :| LowestFailed(b.items, i);
    FirstFailed(b.items, i);
    assert Settled(b.items[i], i);
  }

  /** The generic error is reachable, exactly under a negative percentage for a positive number of tasks told to the
      constructor: then zero failures exceed the tolerance and no task runs. */
  lemma GenericErrorExactly(setup: Setup, run: seq<State>)
    requires setup.tasks > 0 && IsRun(setup, run) && AllDone(run[|run| - 1])
    ensures GetResults(Finish(setup, run[|run| - 1])) == Error(Execution("Batch operation failed")) <==>
            NegativePercentage(setup.config) && setup.total > 0 && setup.config.minSuccessful != Some(0)
  {
    FinalItems(setup, run);
    ExceededByNothing(setup.config, setup.total);
    var b := Finish(setup, run[|run| - 1]);
    if NegativePercentage(setup.config) && setup.total > 0 {
      DecidedFromTheStart(setup, run);
      NoneFailed(b.items);
    } else if b.reason == FailureToleranceExceeded {
      ErrorOfBatch(setup, run);
    }
  }
}
