/** concurrency.rs, record_success / record_failure / record_suspend: calls made by concurrent tasks, interleaved
    one atomic operation at a time. Each call bumps its counters, then makes its own torn should_complete call. */
module Recorders {
  import opened Counting
  import opened Completion

  datatype Kind = Success | Failure | Suspend

  datatype Recorder =
    | Start
    | Between                 // completed_count is bumped, the second counter is not
    | Loading(l: Loads)       // both bumped; l.Returned? is the end of the call

  datatype System = System(counters: Counters, calls: seq<Recorder>)

  predicate Finished(r: Recorder) { r.Loading? && r.l.Returned? }

  function Init(n: nat): System {
    System(ZERO, seq(n, i => Start))
  }

  /** The next atomic operation of call i, which records an outcome of kind kinds[i]. */
  function Advance(config: CompletionConfig, kinds: seq<Kind>, s: System, i: nat): System
    requires i < |s.calls| == |kinds| && !Finished(s.calls[i])
  {
    var c := s.counters;
    match s.calls[i]
    case Start =>
      if kinds[i] == Suspend then System(c.(suspended := c.suspended + 1), s.calls[i := Loading(AtCompleted)])
      else System(c.(completed := c.completed + 1), s.calls[i := Between])
    case Between =>
      System(if kinds[i] == Success then c.(successes := c.successes + 1) else c.(failures := c.failures + 1),
             s.calls[i := Loading(AtCompleted)])
    case Loading(l) =>
      System(c, s.calls[i := Loading(NextLoad(config, |kinds|, c, l))])
  }

  ghost predicate Next(config: CompletionConfig, kinds: seq<Kind>, s: System, t: System) {
    |s.calls| == |kinds| &&
    exists i :: 0 <= i < |s.calls| && !Finished(s.calls[i]) && t == Advance(config, kinds, s, i)
  }

  ghost predicate IsRun(config: CompletionConfig, kinds: seq<Kind>, run: seq<System>) {
    && |run| > 0 && run[0] == Init(|kinds|)
    && forall j :: 0 <= j < |run| - 1 ==> Next(config, kinds, run[j], run[j + 1])
  }

  predicate IsBetween(r: Recorder) { r.Between? }
  predicate CountedDone(k: Kind, r: Recorder) { !r.Start? && k != Suspend }
  predicate CountedSuspended(k: Kind, r: Recorder) { !r.Start? && k == Suspend }

  /** Each call with the kind it records. */
  function Paired(kinds: seq<Kind>, calls: seq<Recorder>): seq<(Kind, Recorder)>
    requires |kinds| == |calls|
  {
    seq(|calls|, i requires 0 <= i < |calls| => (kinds[i], calls[i]))
  }

  const COUNTED_DONE := (p: (Kind, Recorder)) => CountedDone(p.0, p.1)
  const COUNTED_SUSPENDED := (p: (Kind, Recorder)) => CountedSuspended(p.0, p.1)

  /** A call sure to return Some. */
  predicate SureOfSome(config: CompletionConfig, total: nat, c: Counters, r: Recorder) {
    r.Loading? && Doomed(config, total, c, r.l)
  }

  ghost predicate Inv(config: CompletionConfig, kinds: seq<Kind>, s: System) {
    && |s.calls| == |kinds|
    && (forall i :: 0 <= i < |kinds| && s.calls[i].Between? ==> kinds[i] != Suspend)
    && s.counters.completed == Count(Paired(kinds, s.calls), COUNTED_DONE)
    && s.counters.suspended == Count(Paired(kinds, s.calls), COUNTED_SUSPENDED)
    && s.counters.completed == s.counters.successes + s.counters.failures + Count(s.calls, IsBetween)
    && (|kinds| > 0 && (forall i :: 0 <= i < |kinds| ==> s.calls[i].Loading?) ==>
          exists i :: 0 <= i < |kinds| && SureOfSome(config, |kinds|, s.counters, s.calls[i]))
  }

  lemma AdvanceGrows(config: CompletionConfig, kinds: seq<Kind>, s: System, i: nat)
    requires i < |s.calls| == |kinds| && !Finished(s.calls[i])
    ensures Grows(s.counters, Advance(config, kinds, s, i).counters)
  {
  }

  lemma InitInv(config: CompletionConfig, kinds: seq<Kind>)
    ensures Inv(config, kinds, Init(|kinds|))
  {
    var s := Init(|kinds|);
    CountZero(s.calls, IsBetween);
    CountZero(Paired(kinds, s.calls), COUNTED_DONE);
    CountZero(Paired(kinds, s.calls), COUNTED_SUSPENDED);
    if |kinds| > 0 {
      assert !s.calls[0].Loading?;
    }
  }

  /** The count clauses of the invariant. */
  lemma AdvanceCounts(config: CompletionConfig, kinds: seq<Kind>, s: System, i: nat)
    requires Inv(config, kinds, s) && i < |s.calls| && !Finished(s.calls[i])
    ensures var t := Advance(config, kinds, s, i);
            && |t.calls| == |kinds|
            && t.counters.completed == Count(Paired(kinds, t.calls), COUNTED_DONE)
            && t.counters.suspended == Count(Paired(kinds, t.calls), COUNTED_SUSPENDED)
            && t.counters.completed == t.counters.successes + t.counters.failures + Count(t.calls, IsBetween)
  {
    var t := Advance(config, kinds, s, i);
    var p := Paired(kinds, s.calls);
    CountUpdate(s.calls, i, t.calls[i], IsBetween);
    CountUpdate(p, i, (kinds[i], t.calls[i]), COUNTED_DONE);
    CountUpdate(p, i, (kinds[i], t.calls[i]), COUNTED_SUSPENDED);
    assert Paired(kinds, t.calls) == p[i := (kinds[i], t.calls[i])];
    assert p[i] == (kinds[i], s.calls[i]);
  }

  /** When every call is past its increments, all total_tasks outcomes are in the counters. */
  lemma AllCounted(config: CompletionConfig, kinds: seq<Kind>, s: System)
    requires |s.calls| == |kinds| && forall i :: 0 <= i < |kinds| ==> s.calls[i].Loading?
    requires s.counters.completed == Count(Paired(kinds, s.calls), COUNTED_DONE)
    requires s.counters.suspended == Count(Paired(kinds, s.calls), COUNTED_SUSPENDED)
    ensures Decided(config, |kinds|, s.counters)
  {
    CountDisjoint(Paired(kinds, s.calls), COUNTED_DONE, COUNTED_SUSPENDED);
  }

  lemma AdvanceInv(config: CompletionConfig, kinds: seq<Kind>, s: System, i: nat)
    requires Inv(config, kinds, s) && i < |s.calls| && !Finished(s.calls[i])
    ensures Inv(config, kinds, Advance(config, kinds, s, i))
  {
    var t := Advance(config, kinds, s, i);
    AdvanceCounts(config, kinds, s, i);
    AdvanceGrows(config, kinds, s, i);
    if forall j :: 0 <= j < |kinds| ==> t.calls[j].Loading? {
      if s.calls[i].Loading? {
        // everyone was past the increments before: the sure call stays sure
        assert forall j :: 0 <= j < |kinds| ==> s.calls[j].Loading? by {
          assert forall j :: 0 <= j < |kinds| && j != i ==> s.calls[j] == t.calls[j];
        }
        var w :| 0 <= w < |kinds| && SureOfSome(config, |kinds|, s.counters, s.calls[w]);
        if w == i {
          LoadKeepsDoomed(config, |kinds|, s.counters, s.calls[i].l);
        }
        assert SureOfSome(config, |kinds|, t.counters, t.calls[w]);
      } else {
        // call i has just made the last increment of all: its own loads see every task done
        AllCounted(config, kinds, t);
        assert SureOfSome(config, |kinds|, t.counters, t.calls[i]);
      }
    }
  }

  lemma {:induction false} RunInv(config: CompletionConfig, kinds: seq<Kind>, run: seq<System>, j: nat)
    requires IsRun(config, kinds, run) && j < |run|
    ensures Inv(config, kinds, run[j])
  {
    if j == 0 {
      InitInv(config, kinds);
    } else {
      RunInv(config, kinds, run, j - 1);
      assert Next(config, kinds, run[j - 1], run[j - 1 + 1]);
      var i :| 0 <= i < |run[j - 1].calls| && !Finished(run[j - 1].calls[i]) && run[j] == Advance(config, kinds, run[j - 1], i);
      AdvanceInv(config, kinds, run[j - 1], i);
    }
  }

  /** At every moment completed_count runs ahead of success_count + failure_count by the number of calls caught
      between their two increments. */
  lemma CompletedRunsAhead(config: CompletionConfig, kinds: seq<Kind>, run: seq<System>, j: nat)
    requires IsRun(config, kinds, run) && j < |run|
    ensures var s := run[j];
            s.counters.completed - (s.counters.successes + s.counters.failures) == Count(s.calls, IsBetween)
  {
    RunInv(config, kinds, run, j);
  }

  /** The call of this kind has made all its increments. */
  predicate Through(k: Kind, p: (Kind, Recorder)) { p.0 == k && p.1.Loading? }

  lemma AdvanceThrough(config: CompletionConfig, kinds: seq<Kind>, s: System, i: nat)
    requires i < |s.calls| == |kinds| && !Finished(s.calls[i]) && (s.calls[i].Between? ==> kinds[i] != Suspend)
    ensures var c, d := s.counters, Advance(config, kinds, s, i).counters;
            var was, now := (kinds[i], s.calls[i]), (kinds[i], Advance(config, kinds, s, i).calls[i]);
            && d.successes == c.successes + (if Through(Success, now) && !Through(Success, was) then 1 else 0)
            && d.failures == c.failures + (if Through(Failure, now) && !Through(Failure, was) then 1 else 0)
            && d.suspended == c.suspended + (if Through(Suspend, now) && !Through(Suspend, was) then 1 else 0)
            && (forall k :: Through(k, was) ==> Through(k, now))
            && Advance(config, kinds, s, i).calls == s.calls[i := now.1]
  {
  }

  predicate ThroughSuccess(p: (Kind, Recorder)) { Through(Success, p) }
  predicate ThroughFailure(p: (Kind, Recorder)) { Through(Failure, p) }
  predicate ThroughSuspend(p: (Kind, Recorder)) { Through(Suspend, p) }

  ghost predicate ByKind(kinds: seq<Kind>, s: System) {
    && |s.calls| == |kinds|
    && s.counters.successes == Count(Paired(kinds, s.calls), ThroughSuccess)
    && s.counters.failures == Count(Paired(kinds, s.calls), ThroughFailure)
    && s.counters.suspended == Count(Paired(kinds, s.calls), ThroughSuspend)
  }

  lemma StepByKind(config: CompletionConfig, kinds: seq<Kind>, s: System, i: nat)
    requires ByKind(kinds, s) && i < |s.calls| && !Finished(s.calls[i]) && (s.calls[i].Between? ==> kinds[i] != Suspend)
    ensures ByKind(kinds, Advance(config, kinds, s, i))
  {
    AdvanceThrough(config, kinds, s, i);
    hide Advance, Through, Count;
    var t := Advance(config, kinds, s, i);
    var p, now := Paired(kinds, s.calls), (kinds[i], t.calls[i]);
    assert Paired(kinds, t.calls) == p[i := now] && p[i] == (kinds[i], s.calls[i]);
    CountUpdate(p, i, now, ThroughSuccess);
    CountUpdate(p, i, now, ThroughFailure);
    CountUpdate(p, i, now, ThroughSuspend);
  }

  lemma StartByKind(kinds: seq<Kind>)
    ensures ByKind(kinds, Init(|kinds|))
  {
    var p := Paired(kinds, Init(|kinds|).calls);
    CountZero(p, ThroughSuccess);
    CountZero(p, ThroughFailure);
    CountZero(p, ThroughSuspend);
  }

  /** Each kind of call raises its own counter, once: at every moment success_count is the number of record_success calls
      that have made their increments, and so for failures and suspensions. */
  lemma {:induction false} CountersByKind(config: CompletionConfig, kinds: seq<Kind>, run: seq<System>, j: nat)
    requires IsRun(config, kinds, run) && j < |run|
    ensures |run[j].calls| == |kinds|
    ensures var c, calls := run[j].counters, Paired(kinds, run[j].calls);
            && c.successes == Count(calls, ThroughSuccess)
            && c.failures == Count(calls, ThroughFailure)
            && c.suspended == Count(calls, ThroughSuspend)
  {
    if j == 0 {
      StartByKind(kinds);
    } else {
      hide Inv, Advance;
      CountersByKind(config, kinds, run, j - 1);
      RunInv(config, kinds, run, j - 1);
      assert Next(config, kinds, run[j - 1], run[j - 1 + 1]);
      var i: nat :| i < |run[j - 1].calls| && !Finished(run[j - 1].calls[i])
                    && run[j] == Advance(config, kinds, run[j - 1], i);
      BetweenKinds(config, kinds, run[j - 1]);
      StepByKind(config, kinds, run[j - 1], i);
    }
  }

  lemma BetweenKinds(config: CompletionConfig, kinds: seq<Kind>, s: System)
    requires Inv(config, kinds, s)
    ensures |s.calls| == |kinds| && forall i :: 0 <= i < |kinds| && s.calls[i].Between? ==> kinds[i] != Suspend
  {
  }

  /** At the end the counters are the numbers of calls of each kind. */
  lemma FinalCounts(config: CompletionConfig, kinds: seq<Kind>, run: seq<System>)
    requires IsRun(config, kinds, run)
    requires var end := run[|run| - 1].calls; forall i :: 0 <= i < |end| ==> Finished(end[i])
    ensures var c := run[|run| - 1].counters;
            && c.successes == Count(kinds, k => k == Success) && c.failures == Count(kinds, k => k == Failure)
            && c.suspended == Count(kinds, k => k == Suspend) && c.completed == c.successes + c.failures
  {
    var s := run[|run| - 1];
    CountersByKind(config, kinds, run, |run| - 1);
    CompletedRunsAhead(config, kinds, run, |run| - 1);
    CountZero(s.calls, IsBetween);
    CountAgree(kinds, Paired(kinds, s.calls), k => k == Success, ThroughSuccess);
    CountAgree(kinds, Paired(kinds, s.calls), k => k == Failure, ThroughFailure);
    CountAgree(kinds, Paired(kinds, s.calls), k => k == Suspend, ThroughSuspend);
  }

  lemma AdvanceBacked(config: CompletionConfig, kinds: seq<Kind>, s: System, i: nat, w: nat)
    requires i < |s.calls| == |kinds| && !Finished(s.calls[i]) && w < |kinds|
    requires s.calls[w].Loading? ==> Backed(config, |kinds|, s.counters, s.calls[w].l)
    ensures var t := Advance(config, kinds, s, i);
            |t.calls| == |kinds| && (t.calls[w].Loading? ==> Backed(config, |kinds|, t.counters, t.calls[w].l))
  {
    AdvanceGrows(config, kinds, s, i);
    if w != i && s.calls[w].Loading? {
      GrowthKeepsLoads(config, |kinds|, s.counters, Advance(config, kinds, s, i).counters, s.calls[w].l);
    } else if w == i && s.calls[i].Loading? {
      LoadKeepsBacked(config, |kinds|, s.counters, s.calls[i].l);
    }
  }

  lemma {:induction false} RunBacked(config: CompletionConfig, kinds: seq<Kind>, run: seq<System>, j: nat, w: nat)
    requires IsRun(config, kinds, run) && j < |run| && w < |kinds|
    ensures |run[j].calls| == |kinds|
    ensures run[j].calls[w].Loading? ==> Backed(config, |kinds|, run[j].counters, run[j].calls[w].l)
  {
    if j > 0 {
      hide Backed, Advance;
      RunBacked(config, kinds, run, j - 1, w);
      assert Next(config, kinds, run[j - 1], run[j - 1 + 1]);
      var i: nat :| i < |run[j - 1].calls| && !Finished(run[j - 1].calls[i])
                    && run[j] == Advance(config, kinds, run[j - 1], i);
      AdvanceBacked(config, kinds, run[j - 1], i, w);
    }
  }

  /** What a call returns: Some only if the counters decide the batch. */
  lemma SomeIsBacked(config: CompletionConfig, kinds: seq<Kind>, run: seq<System>, j: nat, w: nat)
    requires IsRun(config, kinds, run) && j < |run| && w < |run[j].calls| && SaysComplete(run[j].calls[w])
    ensures Decided(config, |kinds|, run[j].counters)
  {
    RunInv(config, kinds, run, j);
    RunBacked(config, kinds, run, j, w);
  }

  predicate SaysComplete(r: Recorder) { Finished(r) && r.l.reason.Some? }

  /** No lost completion: of total_tasks calls, in any interleaving, at least one returns Some and so notifies. */
  lemma NoLostCompletion(config: CompletionConfig, kinds: seq<Kind>, run: seq<System>)
    requires IsRun(config, kinds, run) && |kinds| > 0
    requires var end := run[|run| - 1].calls; forall i :: 0 <= i < |end| ==> Finished(end[i])
    ensures var end := run[|run| - 1].calls; exists i :: 0 <= i < |end| && SaysComplete(end[i])
  {
    RunInv(config, kinds, run, |run| - 1);
    var s := run[|run| - 1];
    var w :| 0 <= w < |kinds| && SureOfSome(config, |kinds|, s.counters, s.calls[w]);
    assert SaysComplete(s.calls[w]);
  }
}
