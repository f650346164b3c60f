# Verified model of the durable execution SDK's core

A Dafny model of four parts of the Rust SDK, with proofs about each.

1. **The concurrent batch executor** (`Completion`, `Recorders`, `Executor`, `ExecutorTheorems`, `Schedules`,
   `Sequential`, `BatchResults`, `ExecutorObject`). `ConcurrentExecutor::execute` is a state machine in which one task
   takes one atomic step at a time: taking a permit, each load of `should_complete`, locking, writing the slot, each of
   the two increments of `complete_task` and `fail_task`, unlocking, giving the permit back. The theorems hold for every
   interleaving, and `Schedules` builds the interleavings that reach the bounds. The class `ConcurrentExecutor` performs
   the same steps on fields in place, under any schedule, and its `Execute` is proved to end with a batch as the theorems
   describe.
2. **The calendar and the timestamp** (`Calendar`, `Timestamp`). The closed form `days_to_ymd` is proved equal to a
   calendar that turns one page a day, and the text is proved readable, and sortable exactly as far as its years have
   four digits.
3. **Batching and backoff** (`ItemBatching`, `MapItems`, `Backoff`, `BackoffValues`, `BackoffTotals`, `Fractions`). The greedy loop of
   `ItemBatcher::batch` is proved faithful, within its limits and optimal; retry schedules are given in whole numbers, bounded, ordered and summed,
   with the exact conditions under which order and closed form fail.
4. **Operation ids** (`Bytes`, `OperationIds`, `ContextTree`, `Execution`, `SharedIds`, `Uuids`). Ids depend only on
   position in the tree of contexts, and are unique under conditions that are stated exactly. The class `Execution` keeps
   the contexts as objects that hand out ids in place, each call one step of the tree. `SharedIds` joins the executor and
   the shared generator of `map` and `parallel`.

`Options` and `Counting` (in `Completion.dfy`) hold the option type and counting over sequences.

## Assumptions

- Atomics interleave sequentially consistently; `Relaxed` and `Acquire` weaken nothing here.
- Task bodies return. Their results are arbitrary, chosen afresh for every run.
- `total_tasks` (given to the constructor) and `tasks.len()` (given to `execute`) are separate in the model, and the
  theorems hold for any two numbers; where more is true of equal ones, the contract says what.
- f64 is `real`: rounding is not modelled, and multipliers and percentages are finite numbers. A power of 2^1024 or more is
  infinite (`FloatLimit`), which together with a zero base is the one way to a NaN that can be seen. Truncation to u64,
  saturation, the conversion to i32 and the wrap of u64 counters are written out.
- The hash is an arbitrary function to 64 bytes. Freedom from collisions is assumed only for the finitely many byte strings
  hashed in one run. The size of an item is an arbitrary function of the item.
- A Rust `String` is its UTF-8 bytes in the id modules.

## Where the code and its documentation differ, or a natural claim fails

The model follows the code.

- `execute` with no tasks returns `AllCompleted` even under `min_successful = 0` (`EmptyBatch`).
- A negative `tolerated_failure_percentage` is exceeded by zero failures: nothing runs, and `get_results` gives its generic
  error (`GenericErrorExactly`).
- The documentation of `ItemBatcher::batch` promises a byte limit for every batch; an oversized item exceeds it alone
  (`ByteLimitExactly`). A zero item limit yields an empty first batch.
- `map` with a batcher loses items: a body takes the first item of its batch and drops the others. Every item is processed
  exactly if the item limit is 1 or any two neighbours together exceed the byte limit (`MapProcessesAllExactly`).
- Exponential backoff converts the attempt to i32, so from attempt 2^31 the exponent is negative and delays fall, unless
  the configuration meets a condition (`RisesExactly`, `WrapExample`).
- A base of zero is not always a delay of one second: once the power is infinite, zero times it is NaN, whose minimum with
  the cap is the cap. Doubling from zero waits the cap from attempt 1024 on (`ZeroBaseExample`, `ZeroBaseTotal`). For other
  bases an infinite power cannot be seen behind the cap (`InfinityIsInvisible`).
- The documentation of the schedules counts attempts from 1 (a linear base of 2 seconds gives 2, 4, 6), the code from 0;
  counted alike, they agree: base times multiplier^attempt, and base times (attempt + 1).
- Truncation to seconds makes the total of a schedule smaller than its closed form, unless every delay is whole before it.
  With the multiplier p / q in lowest terms and c terms below the cap, that holds before attempt 2^31 exactly if q^(c - 1)
  divides the base (`LosesNothingBefore`); `ExponentialTotal` covers all attempts.
- `create_wait_strategy` is documented to panic when attempts run out; it returns `Done` (`WaitDecisions`).
- `deterministic_random_factor` is documented as below 1.0; its quotient can round to 1.0, so 1 is included.
- Timestamps sort chronologically up to the end of 9999 and no further (`OrderEndsWith9999`); `TextOrderExactly` says
  which pairs of instants past it still do.
- `next_operation_id` is documented to give unique ids. That fails past 2^64 operations of one context, when
  `create_child_context` is called twice with one id, and when a context is based on a given string, such as the ARN, that
  comes to be the id of an operation with a child context (`UniqueExactly`, `SharedExactly`,
  `SecondChildRepeats`, `OpenedOnIdRepeats`).
- Callers find their ids again in a replay exactly if each context serves its callers in a fixed order (`ReplayExactly`,
  `SwappedCallers`). `aws-durable-execution-sdk/sdk/src/handlers/map.rs:223` and
  `aws-durable-execution-sdk/sdk/src/handlers/parallel.rs:206` ask a shared context for ids from inside concurrent tasks,
  where that order is up to the scheduler: items keep their ids exactly if no schedule lets two bodies ask
  (`StableIdsExactly`).

## Model

| member | source | states |
|---|---|---|
| Completion.DecisionInNumbers | aws-durable-execution-sdk/sdk/src/concurrency.rs:202-261 | each of the five answers of should_complete, exactly, as inequalities of the counters; a share of failures is exceeded if failures > percentage * total_tasks |
| Completion.TornCallDecides | aws-durable-execution-sdk/sdk/src/concurrency.rs:234-261 | a call decides on completed, suspended, success and failure counts loaded in this order, each at its own moment |
| Completion.DecisionMonotone | aws-durable-execution-sdk/sdk/src/concurrency.rs:202-261 | once the counters decide (or meet a threshold), any larger counters do too |
| Completion.ExceededByNothing | aws-durable-execution-sdk/sdk/src/concurrency.rs:202-224 | zero failures exceed the tolerance exactly under a negative percentage with at least one task |
| Completion.TornReadSandwich | aws-durable-execution-sdk/sdk/src/concurrency.rs:234-261 | over any history of the counters: decided at the first load implies the call returns Some, Some implies decided at the last load, and an undisturbed call is the atomic decision |
| Completion.SomeIsSticky | aws-durable-execution-sdk/sdk/src/concurrency.rs:234-261 | a call that starts after another returned Some returns Some |
| Completion.ReasonOnlyRises | aws-durable-execution-sdk/sdk/src/concurrency.rs:234-261 | of any two calls, one after the other, the second never gives a lower reason in the order Suspended, AllCompleted, FailureToleranceExceeded, MinSuccessfulReached; the last is final |
| Completion.ReasonSeenMidUpdateMayDiffer | aws-durable-execution-sdk/sdk/src/concurrency.rs:84-103 | and it does rise: a call between two increments says AllCompleted, the next MinSuccessfulReached |
| Completion.ExecutionCounters.CompleteTask | aws-durable-execution-sdk/sdk/src/concurrency.rs:84-88 | completed and successes each rise by one, nothing else moves, the new success count is returned |
| Completion.ExecutionCounters.FailTask | aws-durable-execution-sdk/sdk/src/concurrency.rs:99-103 | completed and failures each rise by one, nothing else moves, the new failure count is returned |
| Completion.ExecutionCounters.SuspendTask | aws-durable-execution-sdk/sdk/src/concurrency.rs:114-117 | suspended alone rises by one and is returned |
| Completion.ExecutionCounters.ShouldCompleteNow | aws-durable-execution-sdk/sdk/src/concurrency.rs:234-261 | the sequence of single loads, run alone, is the atomic decision on the counters, and what that is in numbers |
| Recorders.CompletedRunsAhead | aws-durable-execution-sdk/sdk/src/concurrency.rs:654-685 | in every reachable state completed_count minus success_count and failure_count is the number of calls between their two increments |
| Recorders.CountersByKind | aws-durable-execution-sdk/sdk/src/concurrency.rs:654-685 | at every moment success_count is the number of record_success calls past their increments, and so for failures and suspensions |
| Recorders.FinalCounts | aws-durable-execution-sdk/sdk/src/concurrency.rs:654-685 | at the end the counters are the numbers of calls of each kind |
| Recorders.SomeIsBacked | aws-durable-execution-sdk/sdk/src/concurrency.rs:654-685 | a call returns Some only if the counters decide the batch |
| Recorders.NoLostCompletion | aws-durable-execution-sdk/sdk/src/concurrency.rs:654-685 | of total_tasks interleaved record calls at least one returns Some and notifies |
| Executor.RunInv | aws-durable-execution-sdk/sdk/src/concurrency.rs:696-784 | in every reachable state: slots follow the tasks, permits are conserved, the mutex has one owner, counters are tallies, every cancellation has a cause |
| ExecutorTheorems.FinalItems | aws-durable-execution-sdk/sdk/src/concurrency.rs:708-778 | at the end of any run every slot is settled at its own index, with a result exactly if it succeeded and an error exactly if it failed, and the counters are the tallies of the items |
| ExecutorTheorems.FinalReason | aws-durable-execution-sdk/sdk/src/concurrency.rs:773-783 | the reason is a function of the items and total_tasks; a Suspended or AllCompleted batch has a cancelled item only if total_tasks was below the number of tasks; if they are equal the last decision is never None and the reason is that of the items alone |
| ExecutorTheorems.FallbackExactly | aws-durable-execution-sdk/sdk/src/concurrency.rs:780-783 | unwrap_or is used exactly if the constructor was given more tasks than execute and no threshold was met |
| ExecutorTheorems.EmptyBatch | aws-durable-execution-sdk/sdk/src/concurrency.rs:702-705 | no tasks give an empty AllCompleted batch, whatever total_tasks; that differs from the reason of its items exactly if no items meet min_successful or exceed the tolerance |
| ExecutorTheorems.CancelledOnlyByThreshold | aws-durable-execution-sdk/sdk/src/concurrency.rs:729-734 | a cancelled item implies that min_successful or the failure tolerance was met, or that as many tasks as total_tasks were recorded while fewer than all were |
| ExecutorTheorems.TornCallInRun | aws-durable-execution-sdk/sdk/src/concurrency.rs:729-761 | the sandwich for the counters of any run of execute |
| ExecutorTheorems.LateTaskIsCancelled | aws-durable-execution-sdk/sdk/src/concurrency.rs:722-734 | a task that has loaded nothing when the batch is decided never runs its body and ends cancelled |
| ExecutorTheorems.SuccessOvershoot | aws-durable-execution-sdk/sdk/src/concurrency.rs:721-762 | in every reachable state successes are at most min_successful plus the concurrency limit minus one |
| ExecutorTheorems.FailureOvershoot | aws-durable-execution-sdk/sdk/src/concurrency.rs:721-762 | the same for failures and any number of failures above the count or above percentage * total_tasks |
| ExecutorTheorems.FinalOvershoot | aws-durable-execution-sdk/sdk/src/concurrency.rs:721-762 | a batch ends with at most m + k - 1 succeeded and t + k failed items |
| ExecutorTheorems.FinalShare | aws-durable-execution-sdk/sdk/src/concurrency.rs:212-221 | under a tolerated share p >= 0 at most p * total_tasks + k items fail, and none for p < 0 |
| Schedules.SuccessBoundIsTight | aws-durable-execution-sdk/sdk/src/concurrency.rs:721-762 | for every number of tasks, m >= 1 and k >= 1 some run ends with m + k - 1 succeeded items, or all if there are fewer |
| ExecutorTheorems.ZeroAskedNoneRun | aws-durable-execution-sdk/sdk/src/concurrency.rs:721-762 | for m = 0 no item succeeds or fails in any run |
| Schedules.FailureBoundIsTight | aws-durable-execution-sdk/sdk/src/concurrency.rs:721-762 | for every number of tasks, t and k >= 1 some run ends with t + k failed items, or all if there are fewer |
| Schedules.ShareBoundIsTight | aws-durable-execution-sdk/sdk/src/concurrency.rs:721-762 | for every number n of tasks, p >= 0 and k >= 1 some run ends with floor(p * n) + k failed items, or all if there are fewer |
| Schedules.RunToBody | aws-durable-execution-sdk/sdk/src/concurrency.rs:722-739 | a task that can take a permit while the batch is undecided can get to its body |
| Schedules.FinishBody | aws-durable-execution-sdk/sdk/src/concurrency.rs:739-762 | a task in its body can return any outcome and then records it, counts it and gives back its permit, if the mutex is free |
| ExecutorTheorems.CountersTrailSlots | aws-durable-execution-sdk/sdk/src/concurrency.rs:741-756 | slots are written before the counters: at any moment they differ by at most the one outcome that is inside the mutex |
| ExecutorTheorems.ConcurrencyBound | aws-durable-execution-sdk/sdk/src/concurrency.rs:723-739 | free permits plus holders are k, at most k bodies run at once, at most one task is inside the results mutex |
| ExecutorTheorems.Progress | aws-durable-execution-sdk/sdk/src/concurrency.rs:714-770 | a state short of the end has an enabled step exactly if the limit is not zero |
| ExecutorTheorems.RunsAreShort | aws-durable-execution-sdk/sdk/src/concurrency.rs:714-770 | no run makes more than 18 steps a task, so every run ends |
| Sequential.RefinesSequentialLoop | aws-durable-execution-sdk/sdk/src/concurrency.rs:714-783 | with one permit every complete run computes what a sequential loop over the permit order computes |
| Sequential.OnePermitIsSequential | aws-durable-execution-sdk/sdk/src/concurrency.rs:714-783 | with one permit the items of a prefix of the permit order hold what their bodies returned, field by field, the others never ran, and the cut is where the tally of the outcomes first decides |
| BatchResults.ResultsOfBatch | aws-durable-execution-sdk/sdk/src/concurrency.rs:528-548 | unless the tolerance was exceeded, exactly the succeeded values, in index order, success_count of them |
| BatchResults.ErrorOfBatch | aws-durable-execution-sdk/sdk/src/concurrency.rs:528-541 | a batch that exceeded its tolerance gives the error of its lowest failed item, unless zero failures exceed it |
| BatchResults.GenericErrorExactly | aws-durable-execution-sdk/sdk/src/concurrency.rs:540-541 | the generic error is returned exactly under a negative percentage with positive total_tasks, unless min_successful is 0 |
| ExecutorObject.ConcurrentExecutor.constructor | aws-durable-execution-sdk/sdk/src/concurrency.rs:620-634 | counters at zero, as many permits as max_concurrency |
| ExecutorObject.ConcurrentExecutor.Step | aws-durable-execution-sdk/sdk/src/concurrency.rs:721-762 | the in-place effect of one atomic step of a task is the step of the state machine |
| ExecutorObject.ConcurrentExecutor.RecordSuccess | aws-durable-execution-sdk/sdk/src/concurrency.rs:654-661 | completed and success counts rise by one, and the decision on the new counters is returned |
| ExecutorObject.ConcurrentExecutor.RecordFailure | aws-durable-execution-sdk/sdk/src/concurrency.rs:666-673 | completed and failure counts rise by one, and the decision on the new counters is returned |
| ExecutorObject.ConcurrentExecutor.RecordSuspend | aws-durable-execution-sdk/sdk/src/concurrency.rs:678-685 | the suspended count rises by one, and the decision on the new counters is returned |
| ExecutorObject.ConcurrentExecutor.Execute | aws-durable-execution-sdk/sdk/src/concurrency.rs:696-784 | under every schedule execute either ends or, exactly if there are tasks and no permit, waits forever (None); when it ends, each item has its index and, field by field, the value or error its own body returned, or is cancelled; the reason is that of the items and total_tasks; the overshoot is bounded |
| Calendar.ClosedFormIsCalendar | aws-durable-execution-sdk/sdk/src/structured_json_logger.rs:235-248 | for every day count days_to_ymd is the date reached by turning the calendar page that many times from 1970-01-01; no unsigned subtraction underflows |
| Calendar.CountingBack | aws-durable-execution-sdk/sdk/src/structured_json_logger.rs:235-248 | year lengths and month lengths counted back from the date give the day count |
| Calendar.DatesInOrder | aws-durable-execution-sdk/sdk/src/structured_json_logger.rs:235-248 | later day counts have later dates |
| Timestamp.TwentyFourCharacters | aws-durable-execution-sdk/sdk/src/structured_json_logger.rs:228-231 | the text has 24 characters exactly for seconds before the year 10000 |
| Timestamp.Separators | aws-durable-execution-sdk/sdk/src/structured_json_logger.rs:228-231 | in every year the hyphens, T, colons, dot and Z stand 20, 17, 14, 11, 8, 5 and 1 characters before the end, and every other character is a digit |
| Timestamp.SeparatorsOfShortYear | aws-durable-execution-sdk/sdk/src/structured_json_logger.rs:228-231 | with a year of four digits they stand at 4, 7, 10, 13, 16, 19 and 23 |
| Timestamp.TextOrderIsTimeOrder | aws-durable-execution-sdk/sdk/src/structured_json_logger.rs:211-232 | up to the year 9999 lexicographic order of texts is chronological order, both ways (RFC 3339, section 5.1) |
| Timestamp.ReadBack | aws-durable-execution-sdk/sdk/src/structured_json_logger.rs:211-232 | a parser recovers seconds and milliseconds from the text, in every year |
| Timestamp.TextsDiffer | aws-durable-execution-sdk/sdk/src/structured_json_logger.rs:211-232 | no two instants have the same text |
| Timestamp.TextOrderExactly | aws-durable-execution-sdk/sdk/src/structured_json_logger.rs:228-231 | of two instants the text of the earlier sorts first exactly if its year is at most as many leading digits of the later year; otherwise the texts sort the wrong way round |
| Timestamp.OrderEndsWith9999 | aws-durable-execution-sdk/sdk/src/structured_json_logger.rs:228-231 | text order is time order for all instants before a second exactly if that second is at most the first of the year 10000 |
| ItemBatching.ItemBatcher.Batch | aws-durable-execution-sdk/sdk/src/config.rs:1323-1359 | the batches are the input cut up with correct start indices; with a positive item limit they are non-empty, within the limits, and none but the last could hold the next item; with a zero limit the result is an empty batch and then one an item |
| ItemBatching.GreedyIsOptimal | aws-durable-execution-sdk/sdk/src/config.rs:1328-1358 | no admissible contiguous partition has fewer parts |
| ItemBatching.GreedyIsUnique | aws-durable-execution-sdk/sdk/src/config.rs:1328-1358 | the contract of batch determines its result |
| ItemBatching.ByteLimitExactly | aws-durable-execution-sdk/sdk/src/config.rs:1293-1297 | the documented byte limit holds for every batch exactly if no single item is larger than it |
| MapItems.ProcessedItem | aws-durable-execution-sdk/sdk/src/handlers/map.rs:214-219 | what a body processes is the item of the index it is called with |
| MapItems.AllProcessedExactly | aws-durable-execution-sdk/sdk/src/handlers/map.rs:214-219 | if no batch is empty, every item is processed exactly if every batch is a singleton |
| MapItems.MapProcessesAllExactly | aws-durable-execution-sdk/sdk/src/handlers/map.rs:174-219 | map with a greedy batcher and a positive item limit processes every item exactly if the limit is 1 or any two neighbours together exceed the byte limit |
| MapItems.ZeroLimitProcessesAll | aws-durable-execution-sdk/sdk/src/handlers/map.rs:214-219 | with a zero item limit every item is processed, after an empty batch |
| Backoff.Apply | aws-durable-execution-sdk/sdk/src/config.rs:84-96 | full jitter stays between 0 and the delay, half jitter in its upper half, no jitter changes nothing |
| BackoffValues.JitterIsLinear | aws-durable-execution-sdk/sdk/src/config.rs:84-96 | the result is linear in the factor, from 0 (full), half the delay (half) or the delay (none) to the delay |
| BackoffValues.FactorBelowOne | aws-durable-execution-sdk/sdk/src/config.rs:103-114 | the factor is the first eight bytes of the digest over the largest u64, and is 1 only if they are all ones |
| Backoff.DelaysInRange | aws-durable-execution-sdk/sdk/src/config.rs:477-491 | every strategy, with any jitter and multiplier, gives a delay for exactly the attempts below max_attempts, from one second to the cap |
| BackoffValues.LinearValue | aws-durable-execution-sdk/sdk/src/config.rs:685-699 | a linear delay is max(1, min(base * (attempt + 1), cap)) |
| BackoffValues.FixedValue | aws-durable-execution-sdk/sdk/src/config.rs:611-621 | a fixed delay is max(1, base) |
| BackoffValues.ExponentialValue | aws-durable-execution-sdk/sdk/src/config.rs:477-491 | for any multiplier p / q and every attempt, on both sides of the wrap, the delay in whole numbers: max(1, min(base * n / d, cap)), n / d being the power |
| BackoffValues.WholeMultiplierValue | aws-durable-execution-sdk/sdk/src/config.rs:477-491 | for a whole multiplier k and a positive base it is max(1, min(base * k^attempt, cap)) before the wrap |
| BackoffValues.JitteredValue | aws-durable-execution-sdk/sdk/src/config.rs:84-96 | with jitter, of any strategy: the delay before jitter, the fraction noise of it, or half of it and that fraction of the other half, in whole seconds and at least one |
| BackoffValues.JitterShortens | aws-durable-execution-sdk/sdk/src/config.rs:84-96 | a jittered delay is at most the unjittered one of the same attempt, with half jitter at least half of it |
| Backoff.SaturationIsInvisible | aws-durable-execution-sdk/sdk/src/config.rs:685-699 | the saturation of the linear product cannot be observed behind the cap |
| Backoff.InfinityIsInvisible | aws-durable-execution-sdk/sdk/src/config.rs:482-485 | for a positive base an infinite power gives the cap, or, to the negative side, a number below every delay, like its exact value |
| Backoff.DelaysRise | aws-durable-execution-sdk/sdk/src/config.rs:477-491 | without jitter and with a multiplier of at least one, delays do not fall, on either side of the wrap of the exponent |
| Backoff.RisesExactly | aws-durable-execution-sdk/sdk/src/config.rs:482-487 | a whole exponential schedule is non-decreasing exactly if it has at most 2^31 attempts, or the multiplier is 1, the cap at most 1, the base 0 with multiplier^(2^31 - 1) below 2^1024, or cap times multiplier^(2^31) at most the base, or the base 1 with multiplier^(2^31 - 1) below 2 |
| BackoffValues.DelaysFall | aws-durable-execution-sdk/sdk/src/config.rs:482-487 | with a multiplier from 0 to 1 no delay is longer than an earlier one, on either side of the wrap |
| BackoffValues.FallsExactly | aws-durable-execution-sdk/sdk/src/config.rs:482-487 | such a schedule is non-increasing exactly if it has at most 2^31 attempts or a condition on base, cap and multiplier hides the jump of the power at the wrap |
| Backoff.WrapExample | aws-durable-execution-sdk/sdk/src/config.rs:482-487 | doubling from 10 seconds to an hour falls from 3600 to 1 at attempt 2^31 |
| Backoff.ZeroBaseExample | aws-durable-execution-sdk/sdk/src/config.rs:482-485 | doubling from 0 seconds to an hour waits 1 up to attempt 1023, 3600 from attempt 1024 and 1 again from attempt 2^31 |
| BackoffTotals.LinearTotal | aws-durable-execution-sdk/sdk/src/config.rs:685-699 | with positive base and cap the total of a linear schedule is an arithmetic series up to the cap and the cap after |
| BackoffTotals.TruncationLoses | aws-durable-execution-sdk/sdk/src/config.rs:487-490 | the total of any schedule without jitter is at most the sum of its delays before truncation, and equal exactly if each of them is whole |
| BackoffTotals.SeriesTotal | aws-durable-execution-sdk/sdk/src/config.rs:482-487 | for every multiplier of at least one and all attempts, on each side of the wrap of the exponent: a second for the terms below it, a geometric series below the cap, the cap for the others |
| BackoffTotals.AllWholeExactly | aws-durable-execution-sdk/sdk/src/config.rs:482-490 | for a multiplier p / q in lowest terms every delay is whole before truncation exactly if on each side of the wrap the power furthest from zero with a term below the cap and of at least a second has its divisor, q^e or p^-e, in the base |
| BackoffTotals.LosesNothingBefore | aws-durable-execution-sdk/sdk/src/config.rs:482-490 | before the wrap that condition is that q^(c - 1) divides the base, c being the number of terms below the cap |
| BackoffTotals.ExponentialTotal | aws-durable-execution-sdk/sdk/src/config.rs:477-491 | the total is at most the closed form, and equal to it exactly if the multiplier is 1 or that condition holds |
| BackoffTotals.WholeMultiplierTotal | aws-durable-execution-sdk/sdk/src/config.rs:477-491 | a whole multiplier loses nothing to truncation before the wrap, and in all exactly if it loses nothing behind it |
| BackoffTotals.FlatTotal | aws-durable-execution-sdk/sdk/src/config.rs:611-622 | a fixed delay, a multiplier of 1, a cap of at most one second, or a linear schedule with base zero: the one delay times the number of retries |
| BackoffTotals.ZeroBaseTotal | aws-durable-execution-sdk/sdk/src/config.rs:477-491 | an exponential schedule with base zero waits a second a retry, and the cap from where the power is infinite up to the wrap |
| BackoffTotals.OneSecondLoses | aws-durable-execution-sdk/sdk/src/config.rs:487-490 | a multiplier that is not whole loses from a base of one second as soon as two terms are below the cap |
| Backoff.WaitDecisions | aws-durable-execution-sdk/sdk/src/config.rs:210-239 | polling continues exactly while the state asks for it and attempts remain; the delay is from one second to the cap |
| BackoffValues.WaitValue | aws-durable-execution-sdk/sdk/src/config.rs:223-237 | without jitter, for any rate p / q and number of attempts, the delay in whole numbers, rounded to the nearest second |
| BackoffValues.WholeRateValue | aws-durable-execution-sdk/sdk/src/config.rs:223-237 | for a whole rate k it is max(1, min(initial * k^(attempts - 1), cap)) |
| BackoffValues.JitteredWait | aws-durable-execution-sdk/sdk/src/config.rs:223-237 | the same with jitter |
| Bytes.Encode | aws-durable-execution-sdk/sdk/src/context.rs:2382-2389 | the loop writes, for each byte, the character of 0123456789abcdef for its high half and then for its low half |
| Bytes.HexReadsBack | aws-durable-execution-sdk/sdk/src/context.rs:2379-2390 | a parser inverts hex::encode on all byte strings |
| Bytes.HexWritesBack | aws-durable-execution-sdk/sdk/src/context.rs:2379-2390 | every text that the parser accepts is the encoding of what it reads |
| Bytes.Le64Value | aws-durable-execution-sdk/sdk/src/context.rs:254 | the eight bytes are the base-256 digits of the counter, least significant first |
| Bytes.LittleEndianAt | aws-durable-execution-sdk/sdk/src/context.rs:254 | byte k is the digit of 256^k |
| Bytes.PreimageDecodes | aws-durable-execution-sdk/sdk/src/context.rs:251-255 | base bytes followed by the eight counter bytes determine base and counter |
| OperationIds.IdsDetermineOrigin | aws-durable-execution-sdk/sdk/src/context.rs:251-259 | without a collision between the two preimages ids are equal exactly for equal base and counter |
| OperationIds.IdInFull | aws-durable-execution-sdk/sdk/src/context.rs:251-259 | an id is the hexadecimal text of the first sixteen bytes of the hash of the base followed by the eight counter bytes |
| OperationIds.OperationIdGenerator.NextId | aws-durable-execution-sdk/sdk/src/context.rs:171-177 | the id reads as the first sixteen bytes of the hash of the base followed by the old counter; the counter rises by one and wraps at 2^64 |
| OperationIds.OperationIdGenerator.CreateChild | aws-durable-execution-sdk/sdk/src/context.rs:224-226 | a fresh generator on the given base, counting from zero |
| OperationIds.OperationIdGenerator.Clone | aws-durable-execution-sdk/sdk/src/context.rs:229-239 | a fresh generator with the same base and counter |
| OperationIds.DurableContext.CreateChildContext | aws-durable-execution-sdk/sdk/src/context.rs:911-920 | a child with its own fresh generator based on the parent operation id |
| OperationIds.DurableContext.NextOperationIdentifier | aws-durable-execution-sdk/sdk/src/context.rs:982-993 | the next id of the shared generator, down to the bytes hashed, with the parent id of the context |
| OperationIds.DurableContext.Clone | aws-durable-execution-sdk/sdk/src/context.rs:2356-2366 | the clone has the same parent and shares the generator |
| OperationIds.CloneOfGeneratorRepeats | aws-durable-execution-sdk/sdk/src/context.rs:229-239 | the first n ids of a cloned generator are the next n of the original, for every n |
| OperationIds.CloneOfContextTakesTurns | aws-durable-execution-sdk/sdk/src/context.rs:2356-2366 | under any sequence of calls on a context and its clone the ids are the successive ids of one generator, and pairwise different without hash collisions up to 2^64 calls |
| ContextTree.IdsByPosition | aws-durable-execution-sdk/sdk/src/context.rs:171-177 | in every run the i-th id of a context is a function of how the context came about and i |
| ContextTree.ScheduleIndependence | aws-durable-execution-sdk/sdk/src/context.rs:911-993 | two runs leave the same record of callers, positions and ids exactly if each context serves its own callers in the same order |
| ContextTree.ReplayExactly | aws-durable-execution-sdk/sdk/src/context.rs:911-993 | without hash collisions, counter wrap, doubled contexts or contexts made on strings of 32 hexadecimal digits, callers get the same ids in another run exactly if each context serves its callers in the same order |
| ContextTree.SwappedCallers | aws-durable-execution-sdk/sdk/src/context.rs:171-177 | two runs in which one context serves two callers in opposite orders give each caller the id of the other |
| ContextTree.UniqueExactly | aws-durable-execution-sdk/sdk/src/context.rs:251-259 | without hash collisions, ids are unique exactly if no counter has come round and no two contexts that have issued ids share a base |
| ContextTree.SharedExactly | aws-durable-execution-sdk/sdk/src/context.rs:911-920 | bases are shared exactly by contexts made twice on one id or string, and by a context made on a string that is the id of an operation with a child context |
| ContextTree.SecondChildRepeats | aws-durable-execution-sdk/sdk/src/context.rs:911-920 | a run in which create_child_context is called twice with one id and the two children hand out the same id |
| ContextTree.OpenedOnIdRepeats | aws-durable-execution-sdk/sdk/src/context.rs:911-920 | a run in which a context made on the id of an operation repeats the first id of the child context of that operation |
| ContextTree.UniqueForRealArns | aws-durable-execution-sdk/sdk/src/context.rs:251-259 | if no context is made on a string of 32 hexadecimal digits, as no ARN is, ids are unique exactly if no counter has come round and no operation has two child contexts with operations |
| ContextTree.WrapRepeats | aws-durable-execution-sdk/sdk/src/context.rs:171-177 | a run with an operation past the 2^64th of its context has handed out an id twice |
| Execution.Execution.constructor | aws-durable-execution-sdk/sdk/src/context.rs:886-899 | one context, based on the ARN |
| Execution.Execution.NextOperationIdentifier | aws-durable-execution-sdk/sdk/src/context.rs:982-993 | the call on the context object is the step of the tree, and the id returned is the one recorded |
| Execution.Execution.CreateChildContext | aws-durable-execution-sdk/sdk/src/context.rs:911-920 | the new object with its own generator is the new context of the tree |
| Execution.Execution.OpenContext | aws-durable-execution-sdk/sdk/src/context.rs:911-920 | the same for a string that need not be an id |
| SharedIds.IdsByDrawOrder | aws-durable-execution-sdk/sdk/src/handlers/map.rs:215-250 | in every run of the executor whose bodies draw from one generator, the id of an item is the one numbered by how many were drawn before it |
| SharedIds.OneBody | aws-durable-execution-sdk/sdk/src/concurrency.rs:721-762 | with fewer than two tasks, a batch decided from the start, no permit, or one permit and total_tasks at most 1, no run enters two bodies |
| SharedIds.StableIdsExactly | aws-durable-execution-sdk/sdk/src/handlers/parallel.rs:200-230 | items keep their ids over all schedules exactly if none of them lets two bodies ask for one; what lets two is a condition on the tasks and the configuration |
| Uuids.MasksAreArithmetic | aws-durable-execution-sdk/sdk/src/replay_safe.rs:103-113 | the bit masks of the source are the remainders and sums used here |
| Uuids.UuidFromOperation | aws-durable-execution-sdk/sdk/src/replay_safe.rs:93-116 | the array filled and patched in place holds the first sixteen bytes of the hash of operation id and seed, but for the version in byte 6 and the variant in byte 8 |
| Uuids.UuidText | aws-durable-execution-sdk/sdk/src/replay_safe.rs:136-145 | hyphens at 8, 13, 18 and 23 and around them the hexadecimal text of the bytes |
| Uuids.UuidReadsBack | aws-durable-execution-sdk/sdk/src/replay_safe.rs:136-145 | a parser inverts uuid_to_string on all sixteen bytes |
| Uuids.UuidsDetermineOrigin | aws-durable-execution-sdk/sdk/src/replay_safe.rs:88-116 | if the masked digests of the two preimages do not collide, UUIDs and their texts are equal exactly for equal operation id and seed |
| Uuids.UuidDigits | aws-durable-execution-sdk/sdk/src/replay_safe.rs:93-116 | the digits are those of the operation id of the same base and counter except digit 12, which is 4, and digit 16, which is 8, 9, a or b |
| Uuids.VersionAndVariantInText | aws-durable-execution-sdk/sdk/src/replay_safe.rs:106-112 | character 14 of the text is 4 and character 19 is 8, 9, a or b (RFC 4122, sections 4.1.3 and 4.1.1) |

## Left out

- The notification of `completion_notify`: nothing in `execute` waits for it, so the check after recording is modelled and its wake-up is not.
- `ErrorObject::from`: a failing body returns the error object it is converted to.
- Task panics inside `execute`, which would leave a slot pending.
- Wrap of the usize byte sum in `ItemBatcher::batch`: sums are unbounded here.
- Debug-build panics on integer overflow: the exponent of `create_wait_strategy` wraps, as in release builds.
- `ExecutionCounters::pending_count`, `all_completed`, the status predicates and the configuration shorthands: single expressions.
- `hex::encode` and `uuid_from_operation` use arithmetic on byte values instead of bit operations; `MasksAreArithmetic` relates the two.
- Execution state, checkpointing, replay of results, the handlers beyond their draws of ids and what `map` processes, HTTP, signing, logging and the testing crate.
- The internals of Blake2b, of JSON serialization and of `parse_iso8601_to_millis`.
