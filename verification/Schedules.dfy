/** Schedules of execute that can be chosen, and what they reach: the bounds on the overshoot are tight. */
module Schedules {
  import opened Options
  import opened Counting
  import opened Completion
  import opened Executor
  import opened ExecutorTheorems

  datatype Move = Move(task: nat, body: Outcome)

  /** The moves lead from s to t. Only a task that may takes the step in which its body returns. */
  ghost predicate Plays(setup: Setup, s: State, moves: seq<Move>, t: State, may: nat -> bool)
    decreases |moves|
  {
    if moves == [] then s == t
    else
      && Enabled(setup, s, moves[0].task)
      && (s.pcs[moves[0].task].Running? ==> may(moves[0].task))
      && Plays(setup, Advance(setup, s, moves[0].task, moves[0].body), moves[1..], t, may)
  }

  ghost predicate Leads(setup: Setup, s: State, t: State, may: nat -> bool) {
    exists moves: seq<Move> :: Plays(setup, s, moves, t, may)
  }

  lemma LeadsNowhere(setup: Setup, s: State, may: nat -> bool)
    ensures Leads(setup, s, s, may)
  {
    assert Plays(setup, s, [], s, may);
  }

  lemma {:induction false} PlayOn(setup: Setup, s: State, moves: seq<Move>, t: State, m: Move, may: nat -> bool)
    requires Plays(setup, s, moves, t, may)
    requires Enabled(setup, t, m.task) && (t.pcs[m.task].Running? ==> may(m.task))
    ensures Plays(setup, s, moves + [m], Advance(setup, t, m.task, m.body), may)
    decreases |moves|
  {
    hide Advance, Enabled;
    if moves == [] {
      assert [m][1..] == [];
      assert Plays(setup, Advance(setup, t, m.task, m.body), [], Advance(setup, t, m.task, m.body), may);
      assert [] + [m] == [m];
    } else {
      PlayOn(setup, Advance(setup, s, moves[0].task, moves[0].body), moves[1..], t, m, may);
      assert (moves + [m])[1..] == moves[1..] + [m];
    }
  }

  /** One more step. */
  lemma Step(setup: Setup, s: State, t: State, i: nat, body: Outcome, may: nat -> bool) returns (u: State)
    requires Leads(setup, s, t, may)
    requires Enabled(setup, t, i) && (t.pcs[i].Running? ==> may(i))
    ensures u == Advance(setup, t, i, body) && Leads(setup, s, u, may)
  {
    hide Advance, Enabled;
    u := Advance(setup, t, i, body);
    var moves: seq<Move> :| Plays(setup, s, moves, t, may);
    PlayOn(setup, s, moves, t, Move(i, body), may);
  }

  // ---------- one task ----------

  /** The state once task i has got a permit. */
  function Entered(setup: Setup, s: State, i: nat, pc: Pc): State
    requires i < |s.pcs| && CanTakePermit(setup, s)
  {
    s.(pcs := s.pcs[i := pc], free := if setup.maxConcurrency.Some? then s.free - 1 else s.free, order := s.order + [i])
  }

  lemma TakePermit(setup: Setup, s: State, i: nat)
    requires i < |s.pcs| == |s.items| && s.pcs[i].Waiting? && CanTakePermit(setup, s)
    ensures Enabled(setup, s, i) && Advance(setup, s, i, Suspend) == Entered(setup, s, i, Checking(AtCompleted))
  {
  }

  lemma LoadOnce(setup: Setup, s: State, i: nat, l: Loads)
    requires i < |s.pcs| == |s.items| && CanTakePermit(setup, s) && !l.Returned?
    ensures var t := Entered(setup, s, i, Checking(l));
            && Enabled(setup, t, i)
            && Advance(setup, t, i, Suspend) ==
               Entered(setup, s, i, Checking(NextLoad(setup.config, setup.total, s.counters, l)))
  {
    assert s.pcs[i := Checking(l)][i := Checking(NextLoad(setup.config, setup.total, s.counters, l))] ==
           s.pcs[i := Checking(NextLoad(setup.config, setup.total, s.counters, l))];
  }

  lemma StartBody(setup: Setup, s: State, i: nat)
    requires i < |s.pcs| == |s.items| && CanTakePermit(setup, s)
    ensures var t := Entered(setup, s, i, Checking(Returned(None)));
            Enabled(setup, t, i) && Advance(setup, t, i, Suspend) == Entered(setup, s, i, Running)
  {
    assert s.pcs[i := Checking(Returned(None))][i := Running] == s.pcs[i := Running];
  }

  lemma UndecidedLoads(config: CompletionConfig, total: nat, c: Counters)
    requires !Decided(config, total, c)
    ensures NextLoad(config, total, c, AtCompleted) == AtSuspended(c.completed)
    ensures NextLoad(config, total, c, AtSuspended(c.completed)) == AtSuccesses(c.completed, c.suspended)
    ensures NextLoad(config, total, c, AtSuccesses(c.completed, c.suspended)) == AtFailures(c.completed, c.suspended)
    ensures NextLoad(config, total, c, AtFailures(c.completed, c.suspended)) == Returned(None)
  {
  }

  lemma EnteredPc(setup: Setup, s: State, i: nat, pc: Pc)
    requires i < |s.pcs| == |s.items| && CanTakePermit(setup, s)
    ensures var t := Entered(setup, s, i, pc); |t.pcs| == |t.items| == |s.pcs| && t.pcs[i] == pc
  {
  }

  lemma LoadStep(setup: Setup, s0: State, s: State, i: nat, l: Loads, may: nat -> bool)
    requires i < |s.pcs| == |s.items| && CanTakePermit(setup, s) && !l.Returned?
    requires Leads(setup, s0, Entered(setup, s, i, Checking(l)), may)
    ensures Leads(setup, s0,
                  Entered(setup, s, i, Checking(NextLoad(setup.config, setup.total, s.counters, l))), may)
  {
    hide Leads, Enabled, Advance, Entered, CanTakePermit, NextLoad;
    EnteredPc(setup, s, i, Checking(l));
    LoadOnce(setup, s, i, l);
    var u := Step(setup, s0, Entered(setup, s, i, Checking(l)), i, Suspend, may);
  }

  /** A task that can take a permit while the batch is undecided gets to its body, if it goes on alone. */
  lemma RunToBody(setup: Setup, s0: State, s: State, i: nat, may: nat -> bool)
    requires Leads(setup, s0, s, may)
    requires i < |s.pcs| == |s.items| && s.pcs[i].Waiting? && CanTakePermit(setup, s)
    requires !Decided(setup.config, setup.total, s.counters)
    ensures Leads(setup, s0, Entered(setup, s, i, Running), may)
  {
    hide Leads, Enabled, Advance, Entered, CanTakePermit, NextLoad, Decided;
    var c := s.counters;
    UndecidedLoads(setup.config, setup.total, c);
    TakePermit(setup, s, i);
    var t := Step(setup, s0, s, i, Suspend, may);
    LoadStep(setup, s0, s, i, AtCompleted, may);
    LoadStep(setup, s0, s, i, AtSuspended(c.completed), may);
    LoadStep(setup, s0, s, i, AtSuccesses(c.completed, c.suspended), may);
    LoadStep(setup, s0, s, i, AtFailures(c.completed, c.suspended), may);
    EnteredPc(setup, s, i, Checking(Returned(None)));
    StartBody(setup, s, i);
    t := Step(setup, s0, Entered(setup, s, i, Checking(Returned(None))), i, Suspend, may);
  }

  /** The state once task i has recorded its outcome, standing at pc. */
  function Recorded(s: State, i: nat, o: Outcome, pc: Pc): State
    requires i < |s.pcs| == |s.items|
  {
    s.(pcs := s.pcs[i := pc], items := s.items[i := ItemFor(i, o)], counters := Bump(s.counters, o))
  }

  lemma RecordBody(setup: Setup, s0: State, s: State, i: nat, o: Outcome, may: nat -> bool)
    requires Leads(setup, s0, s, may) && may(i)
    requires i < |s.pcs| == |s.items| && s.pcs[i].Running? && s.mutex.None?
    ensures Leads(setup, s0, Recorded(s, i, o, Notifying(o, AtCompleted)), may)
  {
    hide Leads;
    var t := Step(setup, s0, s, i, o, may);
    t := Step(setup, s0, t, i, o, may);
    t := Step(setup, s0, t, i, o, may);
    t := Step(setup, s0, t, i, o, may);
    assert t == s.(pcs := s.pcs[i := t.pcs[i]], items := s.items[i := ItemFor(i, o)],
                   counters := BumpFirst(s.counters, o), mutex := Some(i));
    if !o.Suspend? {
      t := Step(setup, s0, t, i, o, may);
    }
    assert t == s.(pcs := s.pcs[i := RecordUnlock(o)], items := s.items[i := ItemFor(i, o)],
                   counters := Bump(s.counters, o), mutex := Some(i));
    t := Step(setup, s0, t, i, o, may);
    assert t == Recorded(s, i, o, Notifying(o, AtCompleted));
  }

  /** The check after recording ends, whatever it sees. */
  lemma {:induction false} NotifyToEnd(setup: Setup, s0: State, s: State, i: nat, may: nat -> bool)
    requires Leads(setup, s0, s, may)
    requires i < |s.pcs| == |s.items| && s.pcs[i].Notifying?
    ensures Leads(setup, s0, s.(pcs := s.pcs[i := Leaving(Ran(s.pcs[i].o))]), may)
    decreases LoadsLeft(s.pcs[i].l)
  {
    hide Leads;
    var o := s.pcs[i].o;
    var t := Step(setup, s0, s, i, o, may);
    if !s.pcs[i].l.Returned? {
      NotifyToEnd(setup, s0, t, i, may);
      assert t.pcs[i := Leaving(Ran(o))] == s.pcs[i := Leaving(Ran(o))];
    }
  }

  /** The state once task i has run its body, recorded the outcome and given back its permit. */
  function Finished(setup: Setup, s: State, i: nat, o: Outcome): State
    requires i < |s.pcs| == |s.items|
  {
    Recorded(s, i, o, Done(Ran(o))).(free := if setup.maxConcurrency.Some? then s.free + 1 else s.free)
  }

  /** A task in its body can return any outcome and finish, if the results mutex is free. */
  lemma FinishBody(setup: Setup, s0: State, s: State, i: nat, o: Outcome, may: nat -> bool)
    requires Leads(setup, s0, s, may) && may(i)
    requires i < |s.pcs| == |s.items| && s.pcs[i].Running? && s.mutex.None?
    ensures Leads(setup, s0, Finished(setup, s, i, o), may)
  {
    hide Leads, Bump, ItemFor;
    RecordBody(setup, s0, s, i, o, may);
    var t := Recorded(s, i, o, Notifying(o, AtCompleted));
    NotifyToEnd(setup, s0, t, i, may);
    t := t.(pcs := t.pcs[i := Leaving(Ran(o))]);
    t := Step(setup, s0, t, i, o, may);
    assert t.pcs == s.pcs[i := Done(Ran(o))];
    assert t == Finished(setup, s, i, o);
  }

  // ---------- runs ----------

  lemma {:induction false} PlayRun(setup: Setup, run: seq<State>, moves: seq<Move>, t: State, may: nat -> bool)
    returns (longer: seq<State>)
    requires IsRun(setup, run) && Plays(setup, run[|run| - 1], moves, t, may)
    ensures IsRun(setup, longer) && longer[|longer| - 1] == t
    decreases |moves|
  {
    hide IsRun, Advance, Enabled;
    if moves == [] {
      longer := run;
    } else {
      NotEmpty(setup, run);
      ExtendRun(setup, run, moves[0].task, moves[0].body);
      longer := PlayRun(setup, run + [Advance(setup, run[|run| - 1], moves[0].task, moves[0].body)], moves[1..], t, may);
    }
  }

  lemma NotEmpty(setup: Setup, run: seq<State>)
    requires IsRun(setup, run)
    ensures |run| > 0
  {
  }

  lemma RunTo(setup: Setup, t: State, may: nat -> bool) returns (run: seq<State>)
    requires Leads(setup, Init(setup), t, may)
    ensures |run| > 0 && IsRun(setup, run) && run[|run| - 1] == t
  {
    var moves: seq<Move> :| Plays(setup, Init(setup), moves, t, may);
    run := PlayRun(setup, [Init(setup)], moves, t, may);
  }

  // ---------- the overshoot is reached ----------

  function Times(d: nat, o: Outcome): Counters
    requires !o.Suspend?
  {
    if o.Ok? then Counters(d, 0, d, 0) else Counters(d, 0, 0, d)
  }

  /** The first d tasks have returned o, the next r are in their bodies, the others wait. */
  function Stage(setup: Setup, o: Outcome, d: nat, r: nat): State
    requires !o.Suspend? && d + r <= setup.tasks && r <= setup.maxConcurrency.GetOr(0)
  {
    State(Times(d, o),
          seq(setup.tasks, i requires 0 <= i < setup.tasks => if i < d then ItemFor(i, o) else PendingItem(i)),
          seq(setup.tasks, i => if i < d then Done(Ran(o)) else if i < d + r then Running else Waiting),
          setup.maxConcurrency.GetOr(0) - r,
          None,
          seq(d + r, i requires 0 <= i < d + r => i))
  }

  lemma StageEnters(setup: Setup, o: Outcome, d: nat, r: nat)
    requires !o.Suspend? && d + r < setup.tasks && setup.maxConcurrency.Some? && r < setup.maxConcurrency.value
    ensures CanTakePermit(setup, Stage(setup, o, d, r)) && Stage(setup, o, d, r).pcs[d + r].Waiting?
    ensures Entered(setup, Stage(setup, o, d, r), d + r, Running) == Stage(setup, o, d, r + 1)
  {
    var s, t := Stage(setup, o, d, r), Stage(setup, o, d, r + 1);
    assert s.pcs[d + r := Running] == t.pcs;
    assert s.order + [d + r] == t.order;
  }

  lemma StageFinishes(setup: Setup, o: Outcome, d: nat, r: nat)
    requires !o.Suspend? && d + r <= setup.tasks && setup.maxConcurrency.Some? && 0 < r <= setup.maxConcurrency.value
    ensures Stage(setup, o, d, r).pcs[d].Running?
    ensures Finished(setup, Stage(setup, o, d, r), d, o) == Stage(setup, o, d + 1, r - 1)
  {
    var s, t := Stage(setup, o, d, r), Stage(setup, o, d + 1, r - 1);
    assert s.pcs[d := Done(Ran(o))] == t.pcs;
    assert s.items[d := ItemFor(d, o)] == t.items;
    assert Bump(s.counters, o) == t.counters;
    assert s.order == t.order;
  }

  const ANYONE: nat -> bool := i => true

  /** r more tasks enter their bodies. */
  lemma {:induction false} EnterMany(setup: Setup, o: Outcome, d: nat, r: nat)
    requires !o.Suspend? && d + r <= setup.tasks && setup.maxConcurrency.Some? && r <= setup.maxConcurrency.value
    requires !Decided(setup.config, setup.total, Times(d, o))
    requires Leads(setup, Init(setup), Stage(setup, o, d, 0), ANYONE)
    ensures Leads(setup, Init(setup), Stage(setup, o, d, r), ANYONE)
  {
    hide Leads, Entered, Decided;
    if r > 0 {
      EnterMany(setup, o, d, r - 1);
      StageEnters(setup, o, d, r - 1);
      RunToBody(setup, Init(setup), Stage(setup, o, d, r - 1), d + (r - 1), ANYONE);
    }
  }

  /** All that are in their bodies return. */
  lemma {:induction false} FinishMany(setup: Setup, o: Outcome, d: nat, r: nat)
    requires !o.Suspend? && d + r <= setup.tasks && setup.maxConcurrency.Some? && r <= setup.maxConcurrency.value
    requires Leads(setup, Init(setup), Stage(setup, o, d, r), ANYONE)
    ensures Leads(setup, Init(setup), Stage(setup, o, d + r, 0), ANYONE)
    decreases r
  {
    hide Leads, Finished;
    if r > 0 {
      StageFinishes(setup, o, d, r);
      FinishBody(setup, Init(setup), Stage(setup, o, d, r), d, o, ANYONE);
      FinishMany(setup, o, d + 1, r - 1);
    }
  }

  lemma InitIsStage(setup: Setup, o: Outcome)
    requires !o.Suspend?
    ensures Stage(setup, o, 0, 0) == Init(setup)
  {
  }

  /** One task after the other, and then r at once. */
  lemma {:induction false} Burst(setup: Setup, o: Outcome, d: nat, r: nat)
    requires !o.Suspend? && d + r <= setup.tasks && setup.maxConcurrency.Some? && 1 <= r <= setup.maxConcurrency.value
    requires forall j: nat :: j <= d ==> !Decided(setup.config, setup.total, Times(j, o))
    ensures Leads(setup, Init(setup), Stage(setup, o, d + r, 0), ANYONE)
  {
    hide Leads, Decided, Stage;
    if d == 0 {
      InitIsStage(setup, o);
      LeadsNowhere(setup, Init(setup), ANYONE);
    } else {
      Burst(setup, o, d - 1, 1);
    }
    EnterMany(setup, o, d, r);
    FinishMany(setup, o, d, r);
  }

  lemma StageCounters(setup: Setup, o: Outcome, d: nat)
    requires !o.Suspend? && d <= setup.tasks
    ensures Stage(setup, o, d, 0).counters == Times(d, o)
  {
  }

  /** Any run can go on to the end. */
  lemma {:induction false} Completes(setup: Setup, run: seq<State>) returns (longer: seq<State>)
    requires IsRun(setup, run) && setup.maxConcurrency != Some(0)
    ensures |longer| > 0 && IsRun(setup, longer) && AllDone(longer[|longer| - 1])
    ensures Grows(run[|run| - 1].counters, longer[|longer| - 1].counters)
    decreases Sum(run[|run| - 1].pcs, Rank)
  {
    var s := run[|run| - 1];
    if AllDone(s) {
      longer := run;
    } else {
      hide Advance, AllDone;
      RunInv(setup, run, |run| - 1);
      SomeTaskEnabled(setup, s);
      var i: nat :| Enabled(setup, s, i);
      StepLowersRank(setup, s, i, Suspend);
      StepGrows(setup, s, i, Suspend);
      ExtendRun(setup, run, i, Suspend);
      longer := Completes(setup, run + [Advance(setup, s, i, Suspend)]);
    }
  }

  /** How many tasks to run one after the other so that r more can burst: d of them, unless there are too few tasks. */
  function Alone(n: nat, d: nat, r: nat): nat {
    if d + r <= n then d else if r <= n then n - r else 0
  }

  /** A complete run in which d tasks after another return o, and then as many at once as there are permits, as far as
      there are tasks. */
  lemma BurstRun(setup: Setup, o: Outcome, d: nat) returns (run: seq<State>)
    requires !o.Suspend? && setup.maxConcurrency.Some? && setup.maxConcurrency.value >= 1
    requires forall j: nat :: j <= d && j < setup.tasks ==> !Decided(setup.config, setup.total, Times(j, o))
    ensures |run| > 0 && IsRun(setup, run) && AllDone(run[|run| - 1])
    ensures var c, k := run[|run| - 1].counters, setup.maxConcurrency.value;
            var reached := if d + k <= setup.tasks then d + k else setup.tasks;
            Grows(Times(reached, o), c)
  {
    hide Decided, Leads, Stage, IsRun, AllDone;
    var n, k := setup.tasks, setup.maxConcurrency.value;
    var alone := Alone(n, d, k);
    var together := if k <= n then k else n;
    if n == 0 {
      InitIsStage(setup, o);
      LeadsNowhere(setup, Init(setup), ANYONE);
    } else {
      Burst(setup, o, alone, together);
    }
    StageCounters(setup, o, alone + together);
    run := RunTo(setup, Stage(setup, o, alone + together, 0), ANYONE);
    run := Completes(setup, run);
  }

  lemma CountAtMost<A>(s: seq<A>, p: A -> bool)
    ensures Count(s, p) <= |s|
  {
    if s != [] {
      CountAtMost(s[1..], p);
    }
  }

  /** For any number n of tasks, m >= 1 and k >= 1 some run under max_concurrency = k and min_successful = m ends with
      m + k - 1 succeeded items, or n if there are fewer tasks; for m = 0 none succeeds (ZeroAskedNoneRun). */
  lemma SuccessBoundIsTight(n: nat, m: nat, k: nat, v: Value) returns (setup: Setup, run: seq<State>)
    requires m >= 1 && k >= 1
    ensures setup.maxConcurrency == Some(k) && setup.config.minSuccessful == Some(m)
    ensures setup.total == setup.tasks == n && IsRun(setup, run) && AllDone(run[|run| - 1])
    ensures Count(run[|run| - 1].items, IsSucceeded) == if m + k - 1 <= n then m + k - 1 else n
  {
    var o := Ok(v);
    setup := Setup(n, n, Some(k), CompletionConfig(Some(m), None, None));
    forall j: nat | j <= m - 1 && j < n
      ensures !Decided(setup.config, setup.total, Times(j, o))
    {
      DecisionInNumbers(setup.config, setup.total, Times(j, o));
    }
    run := BurstRun(setup, o, m - 1);
    FinalItems(setup, run);
    FinalOvershoot(setup, run, k);
    CountAtMost(run[|run| - 1].items, IsSucceeded);
  }

  /** For any n and t and k >= 1 some run under max_concurrency = k and tolerated_failure_count = t ends with t + k failed
      items, or n if there are fewer tasks. */
  lemma FailureBoundIsTight(n: nat, t: nat, k: nat, e: ErrorObject) returns (setup: Setup, run: seq<State>)
    requires k >= 1
    ensures setup.maxConcurrency == Some(k) && setup.config.toleratedFailureCount == Some(t)
    ensures setup.total == setup.tasks == n && IsRun(setup, run) && AllDone(run[|run| - 1])
    ensures Count(run[|run| - 1].items, IsFailed) == if t + k <= n then t + k else n
  {
    var o := Err(e);
    setup := Setup(n, n, Some(k), CompletionConfig(None, Some(t), None));
    forall j: nat | j <= t && j < n
      ensures !Decided(setup.config, setup.total, Times(j, o))
    {
      DecisionInNumbers(setup.config, setup.total, Times(j, o));
    }
    run := BurstRun(setup, o, t);
    FinalItems(setup, run);
    FinalOvershoot(setup, run, k);
    CountAtMost(run[|run| - 1].items, IsFailed);
  }

  /** For any n, share p >= 0 and k >= 1 some run under max_concurrency = k and tolerated_failure_percentage = p ends with
      floor(p * n) + k failed items, or n if there are fewer tasks. */
  lemma ShareBoundIsTight(n: nat, p: real, k: nat, e: ErrorObject) returns (setup: Setup, run: seq<State>)
    requires p >= 0.0 && k >= 1
    ensures setup.maxConcurrency == Some(k) && setup.config.toleratedFailurePercentage == Some(p)
    ensures setup.total == setup.tasks == n && IsRun(setup, run) && AllDone(run[|run| - 1])
    ensures var bound := (p * n as real).Floor + k;
            Count(run[|run| - 1].items, IsFailed) == if bound <= n then bound else n
  {
    var o := Err(e);
    setup := Setup(n, n, Some(k), CompletionConfig(None, None, Some(p)));
    hide Decided, IsRun, AllDone;
    NotNegative(p, n);
    var t: nat := (p * n as real).Floor;
    forall j: nat | j <= t && j < n
      ensures !Decided(setup.config, setup.total, Times(j, o))
    {
      UndecidedUpToShare(setup, p, j, e);
    }
    run := BurstRun(setup, o, t);
    FinalItems(setup, run);
    CountAtMost(run[|run| - 1].items, IsFailed);
    if n > 0 {
      FinalWholeShare(setup, run, k, p);
    }
  }

  lemma UndecidedUpToShare(setup: Setup, p: real, j: nat, e: ErrorObject)
    requires setup.config == CompletionConfig(None, None, Some(p)) && j < setup.total
    requires j <= (p * setup.total as real).Floor
    ensures !Decided(setup.config, setup.total, Times(j, Err(e)))
  {
    DecisionInNumbers(setup.config, setup.total, Times(j, Err(e)));
    var share := p * setup.total as real;
    assert j as real <= share;
  }

  lemma FinalWholeShare(setup: Setup, run: seq<State>, k: nat, p: real)
    requires IsRun(setup, run) && AllDone(run[|run| - 1]) && setup.maxConcurrency == Some(k) && k >= 1
    requires setup.config.toleratedFailurePercentage == Some(p) && setup.total > 0 && p >= 0.0
    ensures Count(run[|run| - 1].items, IsFailed) <= (p * setup.total as real).Floor + k
  {
    FinalShare(setup, run, k, p);
    var share := p * setup.total as real;
    assert (Count(run[|run| - 1].items, IsFailed) - k) as real <= share;
  }
}
