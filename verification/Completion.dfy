/** The option type. */
module Options {
  datatype Option<+T> = None | Some(value: T) {
    function GetOr(default: T): T {
      match this
      case Some(v) => v
      case None => default
    }
  }
}

/** Counting the elements of a sequence that satisfy a predicate, and summing a rank over them. */
module Counting {

  function Count<A>(s: seq<A>, p: A -> bool): nat {
    if s == [] then 0 else (if p(s[0]) then 1 else 0) + Count(s[1..], p)
  }

  function Sum<A>(s: seq<A>, f: A -> nat): nat {
    if s == [] then 0 else f(s[0]) + Sum(s[1..], f)
  }

  lemma {:induction false} CountUpdate<A>(s: seq<A>, i: nat, v: A, p: A -> bool)
    requires i < |s|
    ensures Count(s[i := v], p) + (if p(s[i]) then 1 else 0) == Count(s, p) + (if p(v) then 1 else 0)
  {
    if i == 0 {
      assert s[i := v][1..] == s[1..];
    } else {
      assert s[i := v][1..] == s[1..][i - 1 := v];
      CountUpdate(s[1..], i - 1, v, p);
    }
  }

  lemma {:induction false} SumUpdate<A>(s: seq<A>, i: nat, v: A, f: A -> nat)
    requires i < |s|
    ensures Sum(s[i := v], f) + f(s[i]) == Sum(s, f) + f(v)
  {
    if i == 0 {
      assert s[i := v][1..] == s[1..];
    } else {
      assert s[i := v][1..] == s[1..][i - 1 := v];
      SumUpdate(s[1..], i - 1, v, f);
    }
  }

  /** If p implies q then p is met at most as often as q. */
  lemma {:induction false} CountMono<A>(s: seq<A>, p: A -> bool, q: A -> bool)
    requires forall i :: 0 <= i < |s| && p(s[i]) ==> q(s[i])
    ensures Count(s, p) <= Count(s, q)
  {
    if s != [] {
      CountMono(s[1..], p, q);
    }
  }

  /** Disjoint predicates are met at most |s| times together; an element meeting neither costs one more. */
  lemma {:induction false} CountDisjoint<A>(s: seq<A>, p: A -> bool, q: A -> bool)
    requires forall i :: 0 <= i < |s| ==> !(p(s[i]) && q(s[i]))
    ensures Count(s, p) + Count(s, q) <= |s|
    ensures (exists i :: 0 <= i < |s| && !p(s[i]) && !q(s[i])) <==> Count(s, p) + Count(s, q) < |s|
  {
    if s != [] {
      CountDisjoint(s[1..], p, q);
      if exists i :: 0 <= i < |s| && !p(s[i]) && !q(s[i]) {
        var i :| 0 <= i < |s| && !p(s[i]) && !q(s[i]);
        if i > 0 {
          assert s[1..][i - 1] == s[i];
        }
      }
    }
  }

  lemma {:induction false} CountZero<A>(s: seq<A>, p: A -> bool)
    ensures Count(s, p) == 0 <==> forall i :: 0 <= i < |s| ==> !p(s[i])
  {
    if s != [] {
      CountZero(s[1..], p);
      assert forall i :: 1 <= i < |s| ==> s[i] == s[1..][i - 1];
    }
  }

  /** Sequences that agree element by element on two predicates have the same counts. */
  lemma {:induction false} CountAgree<A, B>(s: seq<A>, t: seq<B>, p: A -> bool, q: B -> bool)
    requires |s| == |t|
    requires forall i :: 0 <= i < |s| ==> p(s[i]) == q(t[i])
    ensures Count(s, p) == Count(t, q)
  {
    if s != [] {
      CountAgree(s[1..], t[1..], p, q);
    }
  }
}

/** concurrency.rs: the counters of a batch and the decision to stop. */
module Completion {
  import opened Options

  /** Percentages are reals: rounding is not the point, and NaN does not arise. */
  datatype CompletionConfig = CompletionConfig(
    minSuccessful: Option<nat>,
    toleratedFailureCount: Option<nat>,
    toleratedFailurePercentage: Option<real>)

  datatype CompletionReason = AllCompleted | MinSuccessfulReached | FailureToleranceExceeded | Suspended

  /** One snapshot of the four counters that change. */
  datatype Counters = Counters(completed: nat, suspended: nat, successes: nat, failures: nat)

  const ZERO := Counters(0, 0, 0, 0)

  predicate MinReached(config: CompletionConfig, successes: nat) {
    config.minSuccessful.Some? && successes >= config.minSuccessful.value
  }

  predicate FailureToleranceExceededAt(config: CompletionConfig, total: nat, failures: nat) {
    || (config.toleratedFailureCount.Some? && failures > config.toleratedFailureCount.value)
    || (config.toleratedFailurePercentage.Some? && total > 0
        && failures as real / total as real > config.toleratedFailurePercentage.value)
  }

  /** The decision on the four values loaded, whether or not they were loaded at one moment. */
  function Decide(config: CompletionConfig, total: nat, completed: nat, suspended: nat, successes: nat, failures: nat)
    : Option<CompletionReason>
  {
    if MinReached(config, successes) then Some(MinSuccessfulReached)
    else if FailureToleranceExceededAt(config, total, failures) then Some(FailureToleranceExceeded)
    else if completed + suspended >= total then
      if suspended > 0 && completed < total then Some(Suspended) else Some(AllCompleted)
    else None
  }

  /** The decision when nothing moves between the loads. */
  function ShouldComplete(config: CompletionConfig, total: nat, c: Counters): Option<CompletionReason> {
    Decide(config, total, c.completed, c.suspended, c.successes, c.failures)
  }

  predicate Decided(config: CompletionConfig, total: nat, c: Counters) {
    ShouldComplete(config, total, c).Some?
  }

  /** One of the two thresholds is met, as opposed to all tasks being done. */
  predicate Triggered(config: CompletionConfig, total: nat, c: Counters) {
    MinReached(config, c.successes) || FailureToleranceExceededAt(config, total, c.failures)
  }

  /** Counters only grow. */
  predicate Grows(c: Counters, d: Counters) {
    c.completed <= d.completed && c.suspended <= d.suspended && c.successes <= d.successes && c.failures <= d.failures
  }

  lemma FailureExceededMonotone(config: CompletionConfig, total: nat, f: nat, g: nat)
    requires f <= g && FailureToleranceExceededAt(config, total, f)
    ensures FailureToleranceExceededAt(config, total, g)
  {
    if total > 0 {
      var t := total as real;
      assert g as real / t - f as real / t == (g - f) as real / t;
      assert (g - f) as real / t >= 0.0;
    }
  }

  /** Zero failures exceed the tolerance exactly under a negative percentage, if there is a task at all. */
  lemma ExceededByNothing(config: CompletionConfig, total: nat)
    ensures FailureToleranceExceededAt(config, total, 0) <==>
            total > 0 && config.toleratedFailurePercentage.Some? && config.toleratedFailurePercentage.value < 0.0
  {
    if total > 0 {
      assert 0 as real / total as real == 0.0;
    }
  }

  /** The tolerance in numbers: more failures than the count, or more than the share of all tasks. */
  predicate Exceeds(config: CompletionConfig, total: nat, failures: nat) {
    || (config.toleratedFailureCount.Some? && failures > config.toleratedFailureCount.value)
    || (config.toleratedFailurePercentage.Some? && total > 0
        && failures as real > config.toleratedFailurePercentage.value * total as real)
  }

  lemma ShareAsProduct(failures: nat, total: nat, p: real)
    requires total > 0
    ensures failures as real / total as real > p <==> failures as real > p * total as real
  {
    var f, t := failures as real, total as real;
    var q := f / t;
    assert q * t == f;
    assert (q - p) * t == f - p * t;
    if q > p {
      assert (q - p) * t > 0.0;
    } else {
      assert (p - q) * t >= 0.0;
    }
  }

  lemma ExceededExactly(config: CompletionConfig, total: nat, failures: nat)
    ensures FailureToleranceExceededAt(config, total, failures) <==> Exceeds(config, total, failures)
  {
    if total > 0 && config.toleratedFailurePercentage.Some? {
      ShareAsProduct(failures, total, config.toleratedFailurePercentage.value);
    }
  }

  /** The decision in numbers. */
  lemma DecisionInNumbers(config: CompletionConfig, total: nat, c: Counters)
    ensures var r := ShouldComplete(config, total, c);
            var enough := config.minSuccessful.Some? && c.successes >= config.minSuccessful.value;
            var tooMany := config.toleratedFailureCount.Some? && c.failures > config.toleratedFailureCount.value;
            var share := config.toleratedFailurePercentage.Some? && total > 0
                         && c.failures as real > config.toleratedFailurePercentage.value * total as real;
            var all := c.completed + c.suspended >= total;
            && (r == Some(MinSuccessfulReached) <==> enough)
            && (r == Some(FailureToleranceExceeded) <==> !enough && (tooMany || share))
            && (r == Some(Suspended) <==>
                !enough && !tooMany && !share && all && c.suspended > 0 && c.completed < total)
            && (r == Some(AllCompleted) <==>
                !enough && !tooMany && !share && all && (c.suspended == 0 || c.completed >= total))
            && (r == None <==> !enough && !tooMany && !share && !all)
  {
    hide FailureToleranceExceededAt;
    ExceededExactly(config, total, c.failures);
  }

  /** Once decided, always decided; once triggered, always triggered. */
  lemma DecisionMonotone(config: CompletionConfig, total: nat, c: Counters, d: Counters)
    requires Grows(c, d)
    ensures Decided(config, total, c) ==> Decided(config, total, d)
    ensures Triggered(config, total, c) ==> Triggered(config, total, d)
  {
    if FailureToleranceExceededAt(config, total, c.failures) {
      FailureExceededMonotone(config, total, c.failures, d.failures);
    }
  }

  // ---------- should_complete as separate loads ----------

  /** Where one call of should_complete stands, with the values it has loaded so far. */
  datatype Loads =
    | AtCompleted
    | AtSuspended(completed: nat)
    | AtSuccesses(completed: nat, suspended: nat)
    | AtFailures(completed: nat, suspended: nat)
    | Returned(reason: Option<CompletionReason>)

  /** The next load of the call, made while the counters are c. */
  function NextLoad(config: CompletionConfig, total: nat, c: Counters, l: Loads): Loads
    requires !l.Returned?
  {
    match l
    case AtCompleted => AtSuspended(c.completed)
    case AtSuspended(completed) => AtSuccesses(completed, c.suspended)
    case AtSuccesses(completed, suspended) =>
      if MinReached(config, c.successes) then Returned(Some(MinSuccessfulReached)) else AtFailures(completed, suspended)
    case AtFailures(completed, suspended) =>
      // min_successful was not met by the load before, so the rest of the decision is this
      if FailureToleranceExceededAt(config, total, c.failures) then Returned(Some(FailureToleranceExceeded))
      else if completed + suspended >= total then
        Returned(Some(if suspended > 0 && completed < total then Suspended else AllCompleted))
      else Returned(None)
  }

  function LoadsLeft(l: Loads): nat {
    match l
    case AtCompleted => 4
    case AtSuspended(_) => 3
    case AtSuccesses(_, _) => 2
    case AtFailures(_, _) => 1
    case Returned(_) => 0
  }

  /** The call can no longer return None, whatever the counters do from c on. */
  predicate Doomed(config: CompletionConfig, total: nat, c: Counters, l: Loads) {
    match l
    case AtCompleted => Decided(config, total, c)
    case AtSuspended(completed) => Triggered(config, total, c) || completed + c.suspended >= total
    case AtSuccesses(completed, suspended) => Triggered(config, total, c) || completed + suspended >= total
    case AtFailures(completed, suspended) =>
      FailureToleranceExceededAt(config, total, c.failures) || completed + suspended >= total
    case Returned(reason) => reason.Some?
  }

  /** What a call has seen is no more than what is there now; a Some it returned is backed by the counters now. */
  predicate Backed(config: CompletionConfig, total: nat, c: Counters, l: Loads) {
    match l
    case AtCompleted => true
    case AtSuspended(completed) => completed <= c.completed
    case AtSuccesses(completed, suspended) => completed <= c.completed && suspended <= c.suspended
    case AtFailures(completed, suspended) => completed <= c.completed && suspended <= c.suspended
    case Returned(reason) => reason.Some? ==> Decided(config, total, c)
  }

  lemma LoadKeepsBacked(config: CompletionConfig, total: nat, c: Counters, l: Loads)
    requires !l.Returned? && Backed(config, total, c, l)
    ensures Backed(config, total, c, NextLoad(config, total, c, l))
  {
  }

  lemma LoadKeepsDoomed(config: CompletionConfig, total: nat, c: Counters, l: Loads)
    requires !l.Returned? && Doomed(config, total, c, l)
    ensures Doomed(config, total, c, NextLoad(config, total, c, l))
  {
  }

  /** Steps of other tasks, which only raise the counters, keep both facts. */
  lemma GrowthKeepsLoads(config: CompletionConfig, total: nat, c: Counters, d: Counters, l: Loads)
    requires Grows(c, d)
    ensures Backed(config, total, c, l) ==> Backed(config, total, d, l)
    ensures Doomed(config, total, c, l) ==> Doomed(config, total, d, l)
  {
    DecisionMonotone(config, total, c, d);
    if FailureToleranceExceededAt(config, total, c.failures) {
      FailureExceededMonotone(config, total, c.failures, d.failures);
    }
  }

  // ---------- the sandwich ----------

  /** One call whose four loads happen at c0, c1, c2, c3. */
  function TornCall(config: CompletionConfig, total: nat, c0: Counters, c1: Counters, c2: Counters, c3: Counters)
    : (r: Option<CompletionReason>)
  {
    var l2 := NextLoad(config, total, c1, NextLoad(config, total, c0, AtCompleted));
    var l3 := NextLoad(config, total, c2, l2);
    if l3.Returned? then l3.reason else NextLoad(config, total, c3, l3).reason
  }

  ghost predicate GrowingTrace(trace: seq<Counters>) {
    forall i :: 0 <= i < |trace| - 1 ==> Grows(trace[i], trace[i + 1])
  }

  lemma {:induction false} TraceGrows(trace: seq<Counters>, i: nat, j: nat)
    requires GrowingTrace(trace) && i <= j < |trace|
    ensures Grows(trace[i], trace[j])
    decreases j
  {
    if i < j {
      TraceGrows(trace, i, j - 1);
      assert Grows(trace[j - 1], trace[j - 1 + 1]);
    }
  }

  /** Over any history of the counters: decided at the first load implies the call returns Some, and Some implies
      decided at the last load. Without movement the call is the atomic decision. */
  lemma TornReadSandwich(config: CompletionConfig, total: nat, trace: seq<Counters>, t0: nat, t1: nat, t2: nat, t3: nat)
    requires GrowingTrace(trace) && t0 <= t1 <= t2 <= t3 < |trace|
    ensures Decided(config, total, trace[t0]) ==> TornCall(config, total, trace[t0], trace[t1], trace[t2], trace[t3]).Some?
    ensures TornCall(config, total, trace[t0], trace[t1], trace[t2], trace[t3]).Some? ==> Decided(config, total, trace[t3])
    ensures trace[t0] == trace[t3] ==>
              TornCall(config, total, trace[t0], trace[t1], trace[t2], trace[t3]) == ShouldComplete(config, total, trace[t0])
  {
    TraceGrows(trace, t0, t1);
    TraceGrows(trace, t1, t2);
    TraceGrows(trace, t2, t3);
    GrowthKeepsLoads(config, total, trace[t0], trace[t1], AtSuspended(trace[t0].completed));
    var l2 := AtSuccesses(trace[t0].completed, trace[t1].suspended);
    GrowthKeepsLoads(config, total, trace[t1], trace[t2], l2);
    var l3 := NextLoad(config, total, trace[t2], l2);
    GrowthKeepsLoads(config, total, trace[t2], trace[t3], l3);
  }

  /** A call that starts after some call returned Some returns Some too. */
  lemma SomeIsSticky(config: CompletionConfig, total: nat, trace: seq<Counters>,
                     s0: nat, s1: nat, s2: nat, s3: nat, t0: nat, t1: nat, t2: nat, t3: nat)
    requires GrowingTrace(trace) && s0 <= s1 <= s2 <= s3 <= t0 <= t1 <= t2 <= t3 < |trace|
    requires TornCall(config, total, trace[s0], trace[s1], trace[s2], trace[s3]).Some?
    ensures TornCall(config, total, trace[t0], trace[t1], trace[t2], trace[t3]).Some?
  {
    TornReadSandwich(config, total, trace, s0, s1, s2, s3);
    TraceGrows(trace, s3, t0);
    DecisionMonotone(config, total, trace[s3], trace[t0]);
    TornReadSandwich(config, total, trace, t0, t1, t2, t3);
  }

  /** How settled a reason is. */
  function Standing(r: CompletionReason): nat {
    match r
    case Suspended => 0
    case AllCompleted => 1
    case FailureToleranceExceeded => 2
    case MinSuccessfulReached => 3
  }

  /** What the value of a torn call says of the four values it loads. */
  lemma TornCallDecides(config: CompletionConfig, total: nat, c0: Counters, c1: Counters, c2: Counters, c3: Counters)
    ensures TornCall(config, total, c0, c1, c2, c3) ==
            Decide(config, total, c0.completed, c1.suspended, c2.successes, c3.failures)
  {
  }

  lemma DecideRises(config: CompletionConfig, total: nat, c: Counters, d: Counters)
    requires Grows(c, d) && Decided(config, total, c)
    ensures Decided(config, total, d)
    ensures Standing(ShouldComplete(config, total, c).value) <= Standing(ShouldComplete(config, total, d).value)
  {
    if FailureToleranceExceededAt(config, total, c.failures) {
      FailureExceededMonotone(config, total, c.failures, d.failures);
    }
  }

  /** The reason is not sticky, but it only moves up: of two calls, one after the other, the second never gives a less
      settled reason, so MinSuccessfulReached is final. */
  lemma ReasonOnlyRises(config: CompletionConfig, total: nat, trace: seq<Counters>,
                        s0: nat, s1: nat, s2: nat, s3: nat, t0: nat, t1: nat, t2: nat, t3: nat)
    requires GrowingTrace(trace) && s0 <= s1 <= s2 <= s3 <= t0 <= t1 <= t2 <= t3 < |trace|
    requires TornCall(config, total, trace[s0], trace[s1], trace[s2], trace[s3]).Some?
    ensures var first := TornCall(config, total, trace[s0], trace[s1], trace[s2], trace[s3]);
            var second := TornCall(config, total, trace[t0], trace[t1], trace[t2], trace[t3]);
            second.Some? && Standing(first.value) <= Standing(second.value)
  {
    TornCallDecides(config, total, trace[s0], trace[s1], trace[s2], trace[s3]);
    TornCallDecides(config, total, trace[t0], trace[t1], trace[t2], trace[t3]);
    TraceGrows(trace, s0, t0);
    TraceGrows(trace, s1, t1);
    TraceGrows(trace, s2, t2);
    TraceGrows(trace, s3, t3);
    DecideRises(config, total,
                Counters(trace[s0].completed, trace[s1].suspended, trace[s2].successes, trace[s3].failures),
                Counters(trace[t0].completed, trace[t1].suspended, trace[t2].successes, trace[t3].failures));
  }

  /** It does move: between the two increments of the last success a call sees every task done but not the success, and
      says AllCompleted where the next call says MinSuccessfulReached. */
  lemma ReasonSeenMidUpdateMayDiffer()
    ensures var config := CompletionConfig(Some(1), None, None);
            var mid, end := Counters(1, 0, 0, 0), Counters(1, 0, 1, 0);
            && Grows(mid, end)
            && TornCall(config, 1, mid, mid, mid, mid) == Some(AllCompleted)
            && TornCall(config, 1, end, end, end, end) == Some(MinSuccessfulReached)
  {
    var config := CompletionConfig(Some(1), None, None);
    assert !FailureToleranceExceededAt(config, 1, 0);
  }

  // ---------- the counters as an object ----------

  class ExecutionCounters {
    const totalTasks: nat
    var completed: nat
    var suspended: nat
    var successes: nat
    var failures: nat

    constructor (total: nat)
      ensures totalTasks == total && View() == ZERO
    {
      totalTasks := total;
      completed, suspended, successes, failures := 0, 0, 0, 0;
    }

    function View(): Counters
      reads this
    {
      Counters(completed, suspended, successes, failures)
    }

    // Each of these is one fetch_add; the value returned is the new one.

    method AddCompleted() returns (n: nat)
      modifies this`completed
      ensures completed == old(completed) + 1 == n
    {
      completed := completed + 1;
      n := completed;
    }

    method AddSuspended() returns (n: nat)
      modifies this`suspended
      ensures suspended == old(suspended) + 1 == n
    {
      suspended := suspended + 1;
      n := suspended;
    }

    method AddSuccess() returns (n: nat)
      modifies this`successes
      ensures successes == old(successes) + 1 == n
    {
      successes := successes + 1;
      n := successes;
    }

    method AddFailure() returns (n: nat)
      modifies this`failures
      ensures failures == old(failures) + 1 == n
    {
      failures := failures + 1;
      n := failures;
    }

    /** Two atomic increments, in this order; the executor makes them as two steps. */
    method CompleteTask() returns (n: nat)
      modifies this
      ensures View() == old(View()).(completed := old(completed) + 1, successes := old(successes) + 1)
      ensures n == successes
    {
      var _ := AddCompleted();
      n := AddSuccess();
    }

    method FailTask() returns (n: nat)
      modifies this
      ensures View() == old(View()).(completed := old(completed) + 1, failures := old(failures) + 1)
      ensures n == failures
    {
      var _ := AddCompleted();
      n := AddFailure();
    }

    method SuspendTask() returns (n: nat)
      modifies this
      ensures View() == old(View()).(suspended := old(suspended) + 1)
      ensures n == suspended
    {
      n := AddSuspended();
    }

    /** A call with no one else running. */
    method ShouldCompleteNow(config: CompletionConfig) returns (r: Option<CompletionReason>)
      ensures r == ShouldComplete(config, totalTasks, View())
      ensures r == Some(MinSuccessfulReached) <==>
              config.minSuccessful.Some? && successes >= config.minSuccessful.value
      ensures r == Some(FailureToleranceExceeded) <==>
              && !(config.minSuccessful.Some? && successes >= config.minSuccessful.value)
              && Exceeds(config, totalTasks, failures)
      ensures r.None? ==> completed + suspended < totalTasks
      ensures r == Some(Suspended) ==> completed < totalTasks <= completed + suspended && suspended > 0
      ensures r == Some(AllCompleted) ==> completed + suspended >= totalTasks && (suspended == 0 || completed >= totalTasks)
    {
      DecisionInNumbers(config, totalTasks, View());
      var l := AtCompleted;
      while !l.Returned?
        invariant l == AtCompleted
                  || l == AtSuspended(completed)
                  || l == AtSuccesses(completed, suspended)
                  || (l == AtFailures(completed, suspended) && !MinReached(config, successes))
                  || l == Returned(ShouldComplete(config, totalTasks, View()))
        decreases LoadsLeft(l)
      {
        l := NextLoad(config, totalTasks, View(), l);
      }
      r := l.reason;
    }
  }
}
