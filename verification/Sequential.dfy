/** With max_concurrency = 1, execute is a sequential loop over the tasks in the order in which they got the permit. */
module Sequential {
  import opened Options
  import opened Counting
  import opened Completion
  import opened Executor

  /** What the loop has produced. */
  datatype Progressed = Progressed(counters: Counters, items: seq<BatchItem>)

  predicate Indices(setup: Setup, order: seq<nat>) {
    forall j :: 0 <= j < |order| ==> order[j] < setup.tasks
  }

  /** The loop: stop running bodies as soon as the outcomes so far decide the batch. outs[j] is what the body of task
      order[j] returns if it runs. */
  function SequentialLoop(setup: Setup, order: seq<nat>, outs: seq<Outcome>): (r: Progressed)
    requires |order| == |outs| && Indices(setup, order)
    ensures |r.items| == setup.tasks
  {
    if order == [] then Progressed(ZERO, Init(setup).items)
    else
      var n := |order| - 1;
      var r := SequentialLoop(setup, order[..n], outs[..n]);
      var i := order[n];
      if Decided(setup.config, setup.total, r.counters) then r.(items := r.items[i := CancelledItem(i)])
      else Progressed(Bump(r.counters, outs[n]), r.items[i := ItemFor(i, outs[n])])
  }

  function BodyOf(pc: Pc): Outcome {
    match pc
    case Done(Ran(o)) => o
    case Leaving(Ran(o)) => o
    case _ => Suspend
  }

  function Outs(order: seq<nat>, pcs: seq<Pc>): (outs: seq<Outcome>)
    requires forall j :: 0 <= j < |order| ==> order[j] < |pcs|
    ensures |outs| == |order|
  {
    seq(|order|, j requires 0 <= j < |order| => BodyOf(pcs[order[j]]))
  }

  /** The tasks that are through, in order. */
  function Through(s: State): seq<nat>
    requires forall j :: 0 <= j < |s.order| ==> s.order[j] < |s.pcs|
  {
    if |s.order| > 0 && !s.pcs[s.order[|s.order| - 1]].Done? then s.order[..|s.order| - 1] else s.order
  }

  ghost predicate OrderInv(setup: Setup, s: State) {
    && |s.pcs| == |s.items| == setup.tasks
    && Indices(setup, s.order)
    && (forall j, k :: 0 <= j < k < |s.order| ==> s.order[j] != s.order[k])
    && (forall i: nat :: i < setup.tasks ==> (i in s.order <==> !s.pcs[i].Waiting?))
    && (forall j :: 0 <= j < |s.order| - 1 ==> s.pcs[s.order[j]].Done?)
  }

  /** The loads of a check that no one disturbs are the counters themselves. */
  predicate ExactLoads(setup: Setup, c: Counters, l: Loads) {
    match l
    case AtCompleted => true
    case AtSuspended(completed) => completed == c.completed
    case AtSuccesses(completed, suspended) => completed == c.completed && suspended == c.suspended
    case AtFailures(completed, suspended) =>
      completed == c.completed && suspended == c.suspended && !MinReached(setup.config, c.successes)
    case Returned(reason) => reason == ShouldComplete(setup.config, setup.total, c)
  }

  /** How far the one task with the permit has taken the state past r. */
  predicate Midway(setup: Setup, r: Progressed, c: Counters, items: seq<BatchItem>, h: nat, pc: Pc)
    requires h < |r.items|
  {
    var stop := Decided(setup.config, setup.total, r.counters);
    match pc
    case Checking(l) => c == r.counters && items == r.items && ExactLoads(setup, c, l)
    case CancelLock => stop && c == r.counters && items == r.items
    case CancelWrite => stop && c == r.counters && items == r.items
    case CancelUnlock => stop && c == r.counters && items == r.items[h := CancelledItem(h)]
    case Leaving(WasCancelled) => stop && c == r.counters && items == r.items[h := CancelledItem(h)]
    case Running => !stop && c == r.counters && items == r.items
    case RecordLock(_) => !stop && c == r.counters && items == r.items
    case RecordWrite(_) => !stop && c == r.counters && items == r.items
    case RecordFirst(o) => !stop && c == r.counters && items == r.items[h := ItemFor(h, o)]
    case RecordSecond(o) =>
      !stop && !o.Suspend? && c == BumpFirst(r.counters, o) && items == r.items[h := ItemFor(h, o)]
    case RecordUnlock(o) => !stop && c == Bump(r.counters, o) && items == r.items[h := ItemFor(h, o)]
    case Notifying(o, _) => !stop && c == Bump(r.counters, o) && items == r.items[h := ItemFor(h, o)]
    case Leaving(Ran(o)) => !stop && c == Bump(r.counters, o) && items == r.items[h := ItemFor(h, o)]
    case _ => false
  }

  ghost predicate SeqInv(setup: Setup, s: State) {
    && OrderInv(setup, s)
    && var done := Through(s);
       var r := SequentialLoop(setup, done, Outs(done, s.pcs));
       if |done| == |s.order| then s.counters == r.counters && s.items == r.items
       else Midway(setup, r, s.counters, s.items, s.order[|done|], s.pcs[s.order[|done|]])
  }

  lemma StartsMidway(setup: Setup, r: Progressed, h: nat)
    requires h < |r.items|
    ensures Midway(setup, r, r.counters, r.items, h, Checking(AtCompleted))
  {
  }

  /** The only permit is free when no one holds it, and then everyone before is through. */
  lemma TakeOrder(setup: Setup, s: State, i: nat, body: Outcome)
    requires setup.maxConcurrency == Some(1) && Permits(setup, s) && OrderInv(setup, s)
    requires Enabled(setup, s, i) && s.pcs[i].Waiting?
    ensures Through(s) == s.order
    ensures var t := Advance(setup, s, i, body);
            && OrderInv(setup, t)
            && t.order == s.order + [i] && t.pcs == s.pcs[i := Checking(AtCompleted)]
            && t.counters == s.counters && t.items == s.items
            && Through(t) == s.order
            && Outs(s.order, t.pcs) == Outs(s.order, s.pcs)
  {
    AllThrough(setup, s, i);
    TakeMoves(setup, s, i, body);
    hide Advance, Enabled, Permits;
    assert i !in s.order;
    var t := Advance(setup, s, i, body);
    assert t.order[|s.order|] == i;
    assert t.order[..|s.order|] == s.order;
  }

  lemma AllThrough(setup: Setup, s: State, i: nat)
    requires setup.maxConcurrency == Some(1) && Permits(setup, s) && Enabled(setup, s, i) && s.pcs[i].Waiting?
    ensures forall j :: 0 <= j < |s.pcs| ==> s.pcs[j].Waiting? || s.pcs[j].Done?
  {
    CountZero(s.pcs, HoldsPermit);
  }

  lemma TakeMoves(setup: Setup, s: State, i: nat, body: Outcome)
    requires Enabled(setup, s, i) && s.pcs[i].Waiting?
    ensures var t := Advance(setup, s, i, body);
            && i < |s.pcs| == |s.items|
            && t.order == s.order + [i] && t.pcs == s.pcs[i := Checking(AtCompleted)]
            && t.counters == s.counters && t.items == s.items
  {
  }

  lemma OrderIsIndices(setup: Setup, s: State)
    requires OrderInv(setup, s)
    ensures |s.pcs| == |s.items| == setup.tasks && Indices(setup, s.order)
  {
  }

  /** A task that takes the only permit finds everyone before it through. */
  lemma TakeStep(setup: Setup, s: State, i: nat, body: Outcome)
    requires setup.maxConcurrency == Some(1) && Permits(setup, s) && SeqInv(setup, s)
    requires Enabled(setup, s, i) && s.pcs[i].Waiting?
    ensures SeqInv(setup, Advance(setup, s, i, body))
  {
    hide SequentialLoop, Midway, Advance, Enabled, Permits, OrderInv, Through, Outs;
    var t := Advance(setup, s, i, body);
    OrderIsIndices(setup, s);
    StepIndex(setup, s, i);
    TakeOrder(setup, s, i, body);
    OrderIsIndices(setup, t);
    StartsMidway(setup, SequentialLoop(setup, s.order, Outs(s.order, s.pcs)), i);
  }

  lemma HolderIsLast(setup: Setup, s: State, i: nat)
    requires OrderInv(setup, s) && i < setup.tasks && HoldsPermit(s.pcs[i])
    ensures |s.order| > 0 && s.order[|s.order| - 1] == i
    ensures Through(s) == s.order[..|s.order| - 1] && i !in Through(s)
  {
    var j :| 0 <= j < |s.order| && s.order[j] == i;
  }

  lemma MidwayStep(setup: Setup, r: Progressed, s: State, i: nat, body: Outcome)
    requires Enabled(setup, s, i) && HoldsPermit(s.pcs[i]) && !s.pcs[i].Leaving? && i < |r.items|
    requires Midway(setup, r, s.counters, s.items, i, s.pcs[i])
    ensures var t := Advance(setup, s, i, body);
            && Midway(setup, r, t.counters, t.items, i, t.pcs[i])
            && HoldsPermit(t.pcs[i])
  {
  }

  lemma HolderOrder(setup: Setup, s: State, i: nat, body: Outcome)
    requires OrderInv(setup, s) && Enabled(setup, s, i) && HoldsPermit(s.pcs[i])
    ensures var t := Advance(setup, s, i, body);
            OrderInv(setup, t) && t.order == s.order && t.pcs == s.pcs[i := t.pcs[i]]
  {
    HolderIsLast(setup, s, i);
  }

  lemma HolderStep(setup: Setup, s: State, i: nat, body: Outcome)
    requires SeqInv(setup, s)
    requires Enabled(setup, s, i) && HoldsPermit(s.pcs[i]) && !s.pcs[i].Leaving?
    ensures SeqInv(setup, Advance(setup, s, i, body))
  {
    var t := Advance(setup, s, i, body);
    var done := Through(s);
    HolderIsLast(setup, s, i);
    HolderOrder(setup, s, i, body);
    MidwayStep(setup, SequentialLoop(setup, done, Outs(done, s.pcs)), s, i, body);
    assert Through(t) == done;
    assert Outs(done, t.pcs) == Outs(done, s.pcs);
  }

  lemma LeaveStep(setup: Setup, s: State, i: nat, body: Outcome)
    requires SeqInv(setup, s) && Enabled(setup, s, i) && s.pcs[i].Leaving?
    ensures SeqInv(setup, Advance(setup, s, i, body))
  {
    var t := Advance(setup, s, i, body);
    var done := Through(s);
    HolderIsLast(setup, s, i);
    HolderOrder(setup, s, i, body);
    var n := |s.order| - 1;
    assert t.pcs[i] == Done(s.pcs[i].fate) && t.counters == s.counters && t.items == s.items;
    assert Through(t) == s.order;
    assert Outs(s.order, t.pcs)[..n] == Outs(done, s.pcs);
    assert Outs(s.order, t.pcs)[n] == BodyOf(s.pcs[i]);
  }

  lemma StartSeqInv(setup: Setup, s: State)
    requires s == Init(setup)
    ensures SeqInv(setup, s)
  {
  }

  lemma {:induction false} RunSeqInv(setup: Setup, run: seq<State>, j: nat)
    requires setup.maxConcurrency == Some(1) && IsRun(setup, run) && j < |run|
    ensures SeqInv(setup, run[j])
  {
    if j == 0 {
      StartSeqInv(setup, run[0]);
    } else {
      hide SeqInv, Advance, Inv;
      var s := run[j - 1];
      RunSeqInv(setup, run, j - 1);
      RunInv(setup, run, j - 1);
      assert Next(setup, run[j - 1], run[j - 1 + 1]);
      var i: nat, body: Outcome :| Enabled(setup, s, i) && run[j] == Advance(setup, s, i, body);
      if s.pcs[i].Waiting? {
        TakeStep(setup, s, i, body);
      } else if s.pcs[i].Leaving? {
        LeaveStep(setup, s, i, body);
      } else {
        HolderStep(setup, s, i, body);
      }
    }
  }

  /** Each task gets the permit once. */
  ghost predicate IsPermutation(setup: Setup, order: seq<nat>) {
    && Indices(setup, order)
    && (forall j, k :: 0 <= j < k < |order| ==> order[j] != order[k])
    && (forall i: nat :: i < setup.tasks ==> i in order)
  }

  /** Every run to the end with one permit computes exactly what the sequential loop computes. */
  lemma RefinesSequentialLoop(setup: Setup, run: seq<State>)
    requires setup.maxConcurrency == Some(1) && IsRun(setup, run) && AllDone(run[|run| - 1])
    ensures var s := run[|run| - 1];
            && IsPermutation(setup, s.order)
            && |s.pcs| == setup.tasks
            && Progressed(s.counters, s.items) == SequentialLoop(setup, s.order, Outs(s.order, s.pcs))
  {
    RunSeqInv(setup, run, |run| - 1);
  }

  // ---------- what the loop computes ----------

  lemma {:induction false} LoopGrows(setup: Setup, order: seq<nat>, outs: seq<Outcome>, j: nat)
    requires |order| == |outs| && Indices(setup, order) && j <= |order|
    ensures Grows(SequentialLoop(setup, order[..j], outs[..j]).counters, SequentialLoop(setup, order, outs).counters)
  {
    if j == |order| {
      assert order[..j] == order && outs[..j] == outs;
    } else {
      var n := |order| - 1;
      assert order[..n][..j] == order[..j] && outs[..n][..j] == outs[..j];
      LoopGrows(setup, order[..n], outs[..n], j);
    }
  }

  /** The counters after the first j tasks. */
  function After(setup: Setup, order: seq<nat>, outs: seq<Outcome>, j: nat): Counters
    requires |order| == |outs| && Indices(setup, order) && j <= |order|
  {
    SequentialLoop(setup, order[..j], outs[..j]).counters
  }

  /** Position j runs its body exactly if the outcomes before it had not decided the batch. */
  lemma {:induction false} LoopItems(setup: Setup, order: seq<nat>, outs: seq<Outcome>, j: nat)
    requires |order| == |outs| && Indices(setup, order) && j < |order|
    requires forall a, b :: 0 <= a < b < |order| ==> order[a] != order[b]
    ensures SequentialLoop(setup, order, outs).items[order[j]] ==
            if Decided(setup.config, setup.total, After(setup, order, outs, j)) then CancelledItem(order[j])
            else ItemFor(order[j], outs[j])
  {
    var n := |order| - 1;
    if j < n {
      assert order[..n][..j] == order[..j] && outs[..n][..j] == outs[..j];
      LoopItems(setup, order[..n], outs[..n], j);
    }
  }

  predicate IsOk(o: Outcome) { o.Ok? }
  predicate IsErr(o: Outcome) { o.Err? }
  predicate IsSuspend(o: Outcome) { o.Suspend? }

  /** The counters that these outcomes add up to. */
  function Tally(outs: seq<Outcome>): Counters {
    Counters(Count(outs, IsOk) + Count(outs, IsErr), Count(outs, IsSuspend), Count(outs, IsOk), Count(outs, IsErr))
  }

  lemma {:induction false} CountSnoc<A>(s: seq<A>, a: A, p: A -> bool)
    ensures Count(s + [a], p) == Count(s, p) + if p(a) then 1 else 0
  {
    if s == [] {
      assert [] + [a] == [a];
    } else {
      assert (s + [a])[1..] == s[1..] + [a];
      CountSnoc(s[1..], a, p);
    }
  }

  lemma TallySnoc(outs: seq<Outcome>, o: Outcome)
    ensures Tally(outs + [o]) == Bump(Tally(outs), o)
  {
    CountSnoc(outs, o, IsOk);
    CountSnoc(outs, o, IsErr);
    CountSnoc(outs, o, IsSuspend);
  }

  /** As long as nothing is decided, the counters of the loop are the tally of the outcomes. */
  lemma {:induction false} LoopTallies(setup: Setup, order: seq<nat>, outs: seq<Outcome>, j: nat)
    requires |order| == |outs| && Indices(setup, order) && j <= |order|
    requires forall i: nat :: i < j ==> !Decided(setup.config, setup.total, After(setup, order, outs, i))
    ensures After(setup, order, outs, j) == Tally(outs[..j])
  {
    hide Tally, Bump;
    if j == 0 {
      NoTally();
    } else {
      LoopTallies(setup, order, outs, j - 1);
      AfterStep(setup, order, outs, j);
      TallySnoc(outs[..j - 1], outs[j - 1]);
      assert outs[..j] == outs[..j - 1] + [outs[j - 1]];
    }
  }

  lemma NoTally()
    ensures Tally([]) == ZERO
  {
  }

  lemma AfterStep(setup: Setup, order: seq<nat>, outs: seq<Outcome>, j: nat)
    requires |order| == |outs| && Indices(setup, order) && 0 < j <= |order|
    requires !Decided(setup.config, setup.total, After(setup, order, outs, j - 1))
    ensures After(setup, order, outs, j) == Bump(After(setup, order, outs, j - 1), outs[j - 1])
  {
    assert order[..j][..j - 1] == order[..j - 1] && outs[..j][..j - 1] == outs[..j - 1];
  }

  /** The first cut tasks of the order ran and hold what their bodies returned, the others never ran, and cut is where
      the tally of the outcomes so far first decides the batch. */
  ghost predicate IsCut(setup: Setup, order: seq<nat>, outs: seq<Outcome>, items: seq<BatchItem>, cut: nat)
    requires |order| == |outs| && Indices(setup, order) && |items| == setup.tasks
  {
    && cut <= |order|
    && (forall j: nat :: j < cut ==> !Decided(setup.config, setup.total, Tally(outs[..j])))
    && (cut < |order| ==> Decided(setup.config, setup.total, Tally(outs[..cut])))
    && (forall j: nat :: j < |order| ==>
          if j < cut then Holds(items[order[j]], order[j], outs[j]) else NeverRan(items[order[j]], order[j]))
  }

  lemma {:induction false} LoopHasCut(setup: Setup, order: seq<nat>, outs: seq<Outcome>)
    requires |order| == |outs| && Indices(setup, order)
    requires forall a, b :: 0 <= a < b < |order| ==> order[a] != order[b]
    ensures exists cut: nat :: IsCut(setup, order, outs, SequentialLoop(setup, order, outs).items, cut)
  {
    hide Tally, Holds, NeverRan, ItemFor, CancelledItem;
    var items := SequentialLoop(setup, order, outs).items;
    var cut := 0;
    while cut < |order| && !Decided(setup.config, setup.total, After(setup, order, outs, cut))
      invariant cut <= |order|
      invariant forall j: nat :: j < cut ==> !Decided(setup.config, setup.total, After(setup, order, outs, j))
    {
      cut := cut + 1;
    }
    forall j: nat | j <= cut
      ensures After(setup, order, outs, j) == Tally(outs[..j])
    {
      LoopTallies(setup, order, outs, j);
    }
    forall j: nat | j < |order|
      ensures if j < cut then Holds(items[order[j]], order[j], outs[j]) else NeverRan(items[order[j]], order[j])
    {
      ItemsHold(order[j], outs[j]);
      LoopItems(setup, order, outs, j);
      if cut <= j {
        assert order[..j][..cut] == order[..cut] && outs[..j][..cut] == outs[..cut];
        LoopGrows(setup, order[..j], outs[..j], cut);
        DecisionMonotone(setup.config, setup.total, After(setup, order, outs, cut), After(setup, order, outs, j));
      }
    }
    assert IsCut(setup, order, outs, items, cut);
  }

  /** Together: with one permit the executed tasks are a prefix of the permit order and the cancelled tasks the rest. */
  lemma OnePermitIsSequential(setup: Setup, run: seq<State>)
    requires setup.maxConcurrency == Some(1) && IsRun(setup, run) && AllDone(run[|run| - 1])
    ensures var s := run[|run| - 1];
            && |s.pcs| == |s.items| == setup.tasks
            && IsPermutation(setup, s.order)
            && exists cut: nat :: IsCut(setup, s.order, Outs(s.order, s.pcs), s.items, cut)
  {
    RefinesSequentialLoop(setup, run);
    var s := run[|run| - 1];
    LoopHasCut(setup, s.order, Outs(s.order, s.pcs));
  }
}
