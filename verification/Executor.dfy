/** concurrency.rs, ConcurrentExecutor::execute as a small-step system: one task takes one atomic step at a time,
    in any order (sequentially consistent interleaving). */
module Executor {
  import opened Options
  import opened Counting
  import opened Completion

  type Value(==, !new)

  datatype ErrorObject = ErrorObject(errorType: string, message: string, stackTrace: Option<string>)

  /** What a task body returns; Suspend is the error that means "resume later". */
  datatype Outcome = Ok(value: Value) | Suspend | Err(error: ErrorObject)

  datatype Status = Succeeded | Failed | Cancelled | Pending | ItemSuspended

  datatype BatchItem = BatchItem(index: nat, status: Status, result: Option<Value>, error: Option<ErrorObject>)

  datatype BatchResult = BatchResult(items: seq<BatchItem>, reason: CompletionReason)

  function PendingItem(i: nat): BatchItem { BatchItem(i, Pending, None, None) }
  function CancelledItem(i: nat): BatchItem { BatchItem(i, Cancelled, None, None) }

  function ItemFor(i: nat, o: Outcome): BatchItem {
    match o
    case Ok(v) => BatchItem(i, Succeeded, Some(v), None)
    case Suspend => BatchItem(i, ItemSuspended, None, None)
    case Err(e) => BatchItem(i, Failed, None, Some(e))
  }

  /** Field by field: the item of task i holds what its body returned. */
  predicate Holds(b: BatchItem, i: nat, o: Outcome) {
    && b.index == i
    && (b.status == Succeeded <==> o.Ok?) && (b.status == Failed <==> o.Err?) && (b.status == ItemSuspended <==> o.Suspend?)
    && (if o.Ok? then b.result == Some(o.value) else b.result.None?)
    && (if o.Err? then b.error.Some? && b.error.value.errorType == o.error.errorType
                       && b.error.value.message == o.error.message && b.error.value.stackTrace == o.error.stackTrace
        else b.error.None?)
  }

  /** Field by field: the item of a task that never ran. */
  predicate NeverRan(b: BatchItem, i: nat) {
    b.index == i && b.status == Cancelled && b.result.None? && b.error.None?
  }

  lemma ItemsHold(i: nat, o: Outcome)
    ensures Holds(ItemFor(i, o), i, o) && NeverRan(CancelledItem(i), i)
  {
  }

  /** tasks is tasks.len() of execute; total is the total_tasks the constructor was given. */
  datatype Setup = Setup(tasks: nat, total: nat, maxConcurrency: Option<nat>, config: CompletionConfig)

  datatype Fate = Ran(o: Outcome) | WasCancelled

  /** What the task does next. The outcome of a body that has been recorded stays here as history. */
  datatype Pc =
    | Waiting                         // for a permit
    | Checking(l: Loads)              // the early completion check
    | CancelLock                      // wants the results mutex
    | CancelWrite                     // has it
    | CancelUnlock                    // slot written
    | Running                         // the task body
    | RecordLock(o: Outcome)          // wants the results mutex
    | RecordWrite(o: Outcome)         // has it
    | RecordFirst(o: Outcome)         // slot written, first increment next
    | RecordSecond(o: Outcome)        // success_count or failure_count next
    | RecordUnlock(o: Outcome)
    | Notifying(o: Outcome, l: Loads) // the check after recording, permit still held
    | Leaving(fate: Fate)             // releases the permit
    | Done(fate: Fate)

  /** order is history: the tasks in the order in which they got a permit. */
  datatype State = State(counters: Counters, items: seq<BatchItem>, pcs: seq<Pc>, free: nat, mutex: Option<nat>,
                         order: seq<nat>)

  predicate HoldsPermit(pc: Pc) { !pc.Waiting? && !pc.Done? }

  predicate InMutex(pc: Pc) {
    pc.CancelWrite? || pc.CancelUnlock? || pc.RecordWrite? || pc.RecordFirst? || pc.RecordSecond? || pc.RecordUnlock?
  }

  function Init(setup: Setup): State {
    State(ZERO, seq(setup.tasks, i requires 0 <= i < setup.tasks => PendingItem(i)), seq(setup.tasks, i => Waiting),
          setup.maxConcurrency.GetOr(0), None, [])
  }

  predicate CanTakePermit(setup: Setup, s: State) {
    setup.maxConcurrency.None? || s.free > 0
  }

  predicate Enabled(setup: Setup, s: State, i: nat) {
    && i < |s.pcs| == |s.items|
    && match s.pcs[i]
       case Waiting => CanTakePermit(setup, s)
       case CancelLock => s.mutex.None?
       case RecordLock(_) => s.mutex.None?
       case Done(_) => false
       case _ => true
  }

  /** The first of the two increments of complete_task and fail_task, or the one of suspend_task. */
  function BumpFirst(c: Counters, o: Outcome): Counters {
    if o.Suspend? then c.(suspended := c.suspended + 1) else c.(completed := c.completed + 1)
  }

  function BumpSecond(c: Counters, o: Outcome): Counters {
    if o.Ok? then c.(successes := c.successes + 1) else c.(failures := c.failures + 1)
  }

  /** The counters once an outcome is counted. */
  function Bump(c: Counters, o: Outcome): Counters {
    if o.Suspend? then BumpFirst(c, o) else BumpSecond(BumpFirst(c, o), o)
  }

  /** Where task i stands after its next step; body is what its body returns, should that be the step. */
  function NextPc(setup: Setup, s: State, i: nat, body: Outcome): Pc
    requires Enabled(setup, s, i)
  {
    match s.pcs[i]
    case Waiting => Checking(AtCompleted)
    case Checking(l) =>
      if !l.Returned? then Checking(NextLoad(setup.config, setup.total, s.counters, l))
      else if l.reason.Some? then CancelLock else Running
    case CancelLock => CancelWrite
    case CancelWrite => CancelUnlock
    case CancelUnlock => Leaving(WasCancelled)
    case Running => RecordLock(body)
    case RecordLock(o) => RecordWrite(o)
    case RecordWrite(o) => RecordFirst(o)
    case RecordFirst(o) => if o.Suspend? then RecordUnlock(o) else RecordSecond(o)
    case RecordSecond(o) => RecordUnlock(o)
    case RecordUnlock(o) => Notifying(o, AtCompleted)
    case Notifying(o, l) =>
      if !l.Returned? then Notifying(o, NextLoad(setup.config, setup.total, s.counters, l)) else Leaving(Ran(o))
    case Leaving(fate) => Done(fate)
    case Done(fate) => Done(fate)
  }

  function Advance(setup: Setup, s: State, i: nat, body: Outcome): State
    requires Enabled(setup, s, i)
  {
    var t := s.(pcs := s.pcs[i := NextPc(setup, s, i, body)]);
    match s.pcs[i]
    case Waiting => t.(free := if setup.maxConcurrency.Some? then s.free - 1 else s.free, order := s.order + [i])
    case CancelLock => t.(mutex := Some(i))
    case CancelWrite => t.(items := s.items[i := CancelledItem(i)])
    case CancelUnlock => t.(mutex := None)
    case RecordLock(_) => t.(mutex := Some(i))
    case RecordWrite(o) => t.(items := s.items[i := ItemFor(i, o)])
    case RecordFirst(o) => t.(counters := BumpFirst(s.counters, o))
    case RecordSecond(o) => t.(counters := BumpSecond(s.counters, o))
    case RecordUnlock(_) => t.(mutex := None)
    case Leaving(_) => t.(free := if setup.maxConcurrency.Some? then s.free + 1 else s.free)
    case _ => t
  }

  ghost predicate Next(setup: Setup, s: State, t: State) {
    exists i: nat, body: Outcome :: Enabled(setup, s, i) && t == Advance(setup, s, i, body)
  }

  ghost predicate IsRun(setup: Setup, run: seq<State>) {
    && |run| > 0 && run[0] == Init(setup)
    && forall j :: 0 <= j < |run| - 1 ==> Next(setup, run[j], run[j + 1])
  }

  lemma ExtendRun(setup: Setup, run: seq<State>, i: nat, body: Outcome)
    requires IsRun(setup, run) && Enabled(setup, run[|run| - 1], i)
    ensures IsRun(setup, run + [Advance(setup, run[|run| - 1], i, body)])
  {
    var t := Advance(setup, run[|run| - 1], i, body);
    var longer := run + [t];
    assert Next(setup, run[|run| - 1], t);
    forall j | 0 <= j < |longer| - 1
      ensures Next(setup, longer[j], longer[j + 1])
    {
      if j < |run| - 1 {
        assert Next(setup, run[j], run[j + 1]);
      }
    }
  }

  predicate AllDone(s: State) { forall i :: 0 <= i < |s.pcs| ==> s.pcs[i].Done? }

  /** What execute returns once every handle is joined. */
  function Finish(setup: Setup, s: State): BatchResult {
    if setup.tasks == 0 then BatchResult([], AllCompleted)
    else BatchResult(s.items, ShouldComplete(setup.config, setup.total, s.counters).GetOr(AllCompleted))
  }

  // ---------- the invariant ----------

  /** The slot of task i is a function of where the task stands. */
  function ItemAt(i: nat, pc: Pc): BatchItem {
    match pc
    case CancelUnlock => CancelledItem(i)
    case RecordFirst(o) => ItemFor(i, o)
    case RecordSecond(o) => ItemFor(i, o)
    case RecordUnlock(o) => ItemFor(i, o)
    case Notifying(o, _) => ItemFor(i, o)
    case Leaving(Ran(o)) => ItemFor(i, o)
    case Leaving(WasCancelled) => CancelledItem(i)
    case Done(Ran(o)) => ItemFor(i, o)
    case Done(WasCancelled) => CancelledItem(i)
    case _ => PendingItem(i)
  }

  /** The outcome whose first increment has been made. */
  function CountedOutcome(pc: Pc): Option<Outcome> {
    match pc
    case RecordSecond(o) => Some(o)
    case RecordUnlock(o) => Some(o)
    case Notifying(o, _) => Some(o)
    case Leaving(Ran(o)) => Some(o)
    case Done(Ran(o)) => Some(o)
    case _ => None
  }

  predicate InCompleted(pc: Pc) { CountedOutcome(pc).Some? && !CountedOutcome(pc).value.Suspend? }
  predicate InSuspended(pc: Pc) { CountedOutcome(pc).Some? && CountedOutcome(pc).value.Suspend? }
  predicate InSuccesses(pc: Pc) { !pc.RecordSecond? && CountedOutcome(pc).Some? && CountedOutcome(pc).value.Ok? }
  predicate InFailures(pc: Pc) { !pc.RecordSecond? && CountedOutcome(pc).Some? && CountedOutcome(pc).value.Err? }

  ghost predicate Shape(setup: Setup, s: State) {
    && |s.pcs| == |s.items| == setup.tasks
    && (forall i :: 0 <= i < setup.tasks ==> s.items[i] == ItemAt(i, s.pcs[i]))
    && (forall i :: 0 <= i < setup.tasks ==> s.pcs[i].RecordSecond? ==> !s.pcs[i].o.Suspend?)
  }

  ghost predicate Permits(setup: Setup, s: State) {
    setup.maxConcurrency.Some? ==> s.free + Count(s.pcs, HoldsPermit) == setup.maxConcurrency.value
  }

  ghost predicate MutexInv(s: State) {
    && (s.mutex.Some? ==> s.mutex.value < |s.pcs|)
    && forall i: nat :: i < |s.pcs| ==> (InMutex(s.pcs[i]) <==> s.mutex == Some(i))
  }

  ghost predicate Tallies(s: State) {
    && s.counters.completed == Count(s.pcs, InCompleted)
    && s.counters.suspended == Count(s.pcs, InSuspended)
    && s.counters.successes == Count(s.pcs, InSuccesses)
    && s.counters.failures == Count(s.pcs, InFailures)
  }

  /** The early check of this task has come out as Some. */
  predicate Cancelling(pc: Pc) {
    || (pc.Checking? && pc.l.Returned? && pc.l.reason.Some?)
    || pc.CancelLock? || pc.CancelWrite? || pc.CancelUnlock?
    || pc == Leaving(WasCancelled) || pc == Done(WasCancelled)
  }

  /** Loads are backed by the counters; cancellations have a cause, which is a threshold unless the constructor was
      told of fewer tasks than it got. */
  predicate Caused(setup: Setup, c: Counters, pc: Pc) {
    && (pc.Checking? ==> Backed(setup.config, setup.total, c, pc.l))
    && (Cancelling(pc) ==> Decided(setup.config, setup.total, c))
    && (Cancelling(pc) && setup.tasks <= setup.total ==> Triggered(setup.config, setup.total, c))
  }

  ghost predicate Causes(setup: Setup, s: State) {
    forall i :: 0 <= i < |s.pcs| ==> Caused(setup, s.counters, s.pcs[i])
  }

  ghost predicate Inv(setup: Setup, s: State) {
    Shape(setup, s) && Permits(setup, s) && MutexInv(s) && Tallies(s) && Causes(setup, s)
  }

  lemma InitInv(setup: Setup)
    ensures Inv(setup, Init(setup))
  {
    var pcs := Init(setup).pcs;
    CountZero(pcs, HoldsPermit);
    CountZero(pcs, InCompleted);
    CountZero(pcs, InSuspended);
    CountZero(pcs, InSuccesses);
    CountZero(pcs, InFailures);
  }

  lemma StepGrows(setup: Setup, s: State, i: nat, body: Outcome)
    requires Enabled(setup, s, i)
    ensures Grows(s.counters, Advance(setup, s, i, body).counters)
  {
  }

  /** A step of task i writes no slot but its own, and that as ItemAt says. */
  lemma StepSlot(setup: Setup, s: State, i: nat, body: Outcome)
    requires Enabled(setup, s, i) && s.items[i] == ItemAt(i, s.pcs[i])
    requires s.pcs[i].RecordSecond? ==> !s.pcs[i].o.Suspend?
    ensures var t := Advance(setup, s, i, body);
            && t.pcs == s.pcs[i := t.pcs[i]]
            && |t.items| == |s.items| && t.items == s.items[i := t.items[i]]
            && t.items[i] == ItemAt(i, t.pcs[i])
            && (t.pcs[i].RecordSecond? ==> !t.pcs[i].o.Suspend?)
  {
  }

  lemma StepShape(setup: Setup, s: State, i: nat, body: Outcome)
    requires Enabled(setup, s, i) && Shape(setup, s)
    ensures Shape(setup, Advance(setup, s, i, body))
  {
    hide Advance, ItemAt, Enabled;
    StepIndex(setup, s, i);
    StepSlot(setup, s, i, body);
  }

  lemma StepIndex(setup: Setup, s: State, i: nat)
    requires Enabled(setup, s, i)
    ensures i < |s.pcs| == |s.items|
  {
  }

  lemma StepPermits(setup: Setup, s: State, i: nat, body: Outcome)
    requires Enabled(setup, s, i) && Permits(setup, s)
    ensures Permits(setup, Advance(setup, s, i, body))
  {
    CountUpdate(s.pcs, i, NextPc(setup, s, i, body), HoldsPermit);
  }

  lemma StepMutex(setup: Setup, s: State, i: nat, body: Outcome)
    requires Enabled(setup, s, i) && MutexInv(s)
    ensures MutexInv(Advance(setup, s, i, body))
  {
  }

  function One(b: bool): nat { if b then 1 else 0 }

  /** Each counter moves as the class of task i does. */
  lemma StepCounters(setup: Setup, s: State, i: nat, body: Outcome)
    requires Enabled(setup, s, i) && (s.pcs[i].RecordSecond? ==> !s.pcs[i].o.Suspend?)
    ensures var t, p := Advance(setup, s, i, body), s.pcs[i];
            var q := NextPc(setup, s, i, body);
            && t.pcs == s.pcs[i := q]
            && t.counters.completed + One(InCompleted(p)) == s.counters.completed + One(InCompleted(q))
            && t.counters.suspended + One(InSuspended(p)) == s.counters.suspended + One(InSuspended(q))
            && t.counters.successes + One(InSuccesses(p)) == s.counters.successes + One(InSuccesses(q))
            && t.counters.failures + One(InFailures(p)) == s.counters.failures + One(InFailures(q))
  {
  }

  lemma StepTallies(setup: Setup, s: State, i: nat, body: Outcome)
    requires Enabled(setup, s, i) && Shape(setup, s) && Tallies(s)
    ensures Tallies(Advance(setup, s, i, body))
  {
    hide Advance, NextPc, Enabled, ItemAt, InCompleted, InSuspended, InSuccesses, InFailures, Count;
    StepIndex(setup, s, i);
    StepCounters(setup, s, i, body);
    var q := NextPc(setup, s, i, body);
    CountUpdate(s.pcs, i, q, InCompleted);
    CountUpdate(s.pcs, i, q, InSuspended);
    CountUpdate(s.pcs, i, q, InSuccesses);
    CountUpdate(s.pcs, i, q, InFailures);
  }

  /** While some task has not made its first increment, not all tasks are done. */
  lemma NotAllDone(setup: Setup, s: State, i: nat)
    requires Shape(setup, s) && Tallies(s) && i < setup.tasks && CountedOutcome(s.pcs[i]).None?
    ensures s.counters.completed + s.counters.suspended < setup.tasks
  {
    CountDisjoint(s.pcs, InCompleted, InSuspended);
  }

  /** Steps of others keep the cause. */
  lemma GrowthKeepsCause(setup: Setup, c: Counters, d: Counters, pc: Pc)
    requires Grows(c, d) && Caused(setup, c, pc)
    ensures Caused(setup, d, pc)
  {
    DecisionMonotone(setup.config, setup.total, c, d);
    if pc.Checking? {
      GrowthKeepsLoads(setup.config, setup.total, c, d, pc.l);
    }
  }

  /** A load keeps the cause: while the task itself has not recorded, not all tasks are done. */
  lemma LoadKeepsCause(setup: Setup, c: Counters, l: Loads)
    requires !l.Returned? && Backed(setup.config, setup.total, c, l) && c.completed + c.suspended < setup.tasks
    ensures Caused(setup, c, Checking(NextLoad(setup.config, setup.total, c, l)))
  {
    LoadKeepsBacked(setup.config, setup.total, c, l);
  }

  lemma OwnCause(setup: Setup, s: State, i: nat, body: Outcome)
    requires Enabled(setup, s, i) && Caused(setup, s.counters, s.pcs[i])
    requires CountedOutcome(s.pcs[i]).None? ==> s.counters.completed + s.counters.suspended < setup.tasks
    ensures Caused(setup, Advance(setup, s, i, body).counters, NextPc(setup, s, i, body))
  {
    hide Decided, Triggered, Backed, NextLoad;
    if s.pcs[i].Checking? && !s.pcs[i].l.Returned? {
      LoadKeepsCause(setup, s.counters, s.pcs[i].l);
    } else if s.pcs[i].Waiting? {
      FreshLoads(setup, s.counters);
    }
  }

  lemma FreshLoads(setup: Setup, c: Counters)
    ensures Caused(setup, c, Checking(AtCompleted))
  {
  }

  lemma StepPcs(setup: Setup, s: State, i: nat, body: Outcome)
    requires Enabled(setup, s, i)
    ensures Advance(setup, s, i, body).pcs == s.pcs[i := NextPc(setup, s, i, body)]
  {
  }

  lemma StepCauses(setup: Setup, s: State, i: nat, body: Outcome)
    requires Enabled(setup, s, i) && Shape(setup, s) && Tallies(s) && Causes(setup, s)
    ensures Causes(setup, Advance(setup, s, i, body))
  {
    hide Advance, NextPc, Enabled, Caused, ItemAt, CountedOutcome;
    StepIndex(setup, s, i);
    StepGrows(setup, s, i, body);
    StepPcs(setup, s, i, body);
    var t := Advance(setup, s, i, body);
    if CountedOutcome(s.pcs[i]).None? {
      NotAllDone(setup, s, i);
    }
    OwnCause(setup, s, i, body);
    forall j | 0 <= j < |t.pcs|
      ensures Caused(setup, t.counters, t.pcs[j])
    {
      if j != i {
        GrowthKeepsCause(setup, s.counters, t.counters, s.pcs[j]);
      }
    }
  }

  lemma StepInv(setup: Setup, s: State, i: nat, body: Outcome)
    requires Enabled(setup, s, i) && Inv(setup, s)
    ensures Inv(setup, Advance(setup, s, i, body))
  {
    StepShape(setup, s, i, body);
    StepPermits(setup, s, i, body);
    StepMutex(setup, s, i, body);
    StepTallies(setup, s, i, body);
    StepCauses(setup, s, i, body);
  }

  lemma {:induction false} RunInv(setup: Setup, run: seq<State>, j: nat)
    requires IsRun(setup, run) && j < |run|
    ensures Inv(setup, run[j])
  {
    if j == 0 {
      InitInv(setup);
    } else {
      RunInv(setup, run, j - 1);
      assert Next(setup, run[j - 1], run[j - 1 + 1]);
      var i: nat, body: Outcome :| Enabled(setup, run[j - 1], i) && run[j] == Advance(setup, run[j - 1], i, body);
      StepInv(setup, run[j - 1], i, body);
    }
  }
}
