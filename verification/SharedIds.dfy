/** handlers/map.rs and handlers/parallel.rs: a body that the executor runs first asks one shared context for the id of
    its item. Which id an item gets is then up to the scheduler, unless at most one body can ever ask. */
module SharedIds {
  import opened Options
  import opened Counting
  import opened Completion
  import opened Executor
  import opened ExecutorTheorems
  import opened Schedules
  import opened Bytes
  import opened OperationIds

  /** The executor together with the counter of the shared context. As history: who drew an id, in order. */
  datatype Joint = Joint(s: State, counter: U64, drawn: seq<nat>, ids: map<nat, Text>)

  /** A step of a task, or the draw of an id by a body. */
  datatype Event = Exec(task: nat, body: Outcome) | Draw(task: nat)

  /** The shared context: its base is the id of the map or parallel operation. The bodies in silent fail before they ask
      for an id, as that of an empty batch does. */
  datatype Shared = Shared(setup: Setup, hash: Hash, base: Text, silent: set<nat>)

  function Start(x: Shared): Joint {
    Joint(Init(x.setup), 0, [], map[])
  }

  /** A body that is not silent draws once, before it returns. */
  predicate Possible(x: Shared, j: Joint, e: Event) {
    match e
    case Exec(i, _) => Enabled(x.setup, j.s, i) && (j.s.pcs[i].Running? ==> i in j.ids || i in x.silent)
    case Draw(i) => i < |j.s.pcs| && j.s.pcs[i].Running? && i !in j.ids && i !in x.silent
  }

  function After(x: Shared, j: Joint, e: Event): Joint
    requires Possible(x, j, e)
  {
    match e
    case Exec(i, body) => j.(s := Advance(x.setup, j.s, i, body))
    case Draw(i) =>
      Joint(j.s, (j.counter + 1) % TWO64, j.drawn + [i], j.ids[i := GenerateOperationId(x.hash, x.base, j.counter)])
  }

  ghost predicate IsJointRun(x: Shared, events: seq<Event>, joints: seq<Joint>) {
    && |joints| == |events| + 1
    && joints[0] == Start(x)
    && forall n :: 0 <= n < |events| ==> Possible(x, joints[n], events[n]) && joints[n + 1] == After(x, joints[n], events[n])
  }

  /** Some schedule gives item i this id. */
  ghost predicate Gets(x: Shared, i: nat, id: Text) {
    exists events: seq<Event>, joints: seq<Joint> ::
      IsJointRun(x, events, joints) && i in joints[|events|].ids && joints[|events|].ids[i] == id
  }

  /** The schedule does not matter to the ids. */
  ghost predicate StableIds(x: Shared) {
    forall i: nat, id: Text, id2: Text :: Gets(x, i, id) && Gets(x, i, id2) ==> id == id2
  }

  // ---------- ids follow the order of the draws ----------

  /** The body has been entered. */
  predicate Started(pc: Pc) {
    || pc.Running? || pc.RecordLock? || pc.RecordWrite? || pc.RecordFirst? || pc.RecordSecond? || pc.RecordUnlock?
    || pc.Notifying? || (pc.Leaving? && pc.fate.Ran?) || (pc.Done? && pc.fate.Ran?)
  }

  predicate Asks(x: Shared, i: nat) { i < x.setup.tasks && i !in x.silent }

  ghost predicate DrawInv(x: Shared, j: Joint) {
    && |j.s.pcs| == x.setup.tasks
    && j.counter == |j.drawn| % TWO64
    && (forall k, l :: 0 <= k < l < |j.drawn| ==> j.drawn[k] != j.drawn[l])
    && (forall i :: i in j.ids ==> i in j.drawn)
    && (forall k: nat :: k < |j.drawn| ==>
          && j.drawn[k] in j.ids && j.ids[j.drawn[k]] == GenerateOperationId(x.hash, x.base, k % TWO64)
          && Asks(x, j.drawn[k]) && Started(j.s.pcs[j.drawn[k]]))
  }

  lemma StepKeepsStarted(setup: Setup, s: State, a: nat, body: Outcome, i: nat)
    requires Enabled(setup, s, a) && i < |s.pcs| && Started(s.pcs[i])
    ensures var t := Advance(setup, s, a, body); |t.pcs| == |s.pcs| && Started(t.pcs[i])
  {
  }

  lemma StepDrawInv(x: Shared, j: Joint, e: Event)
    requires DrawInv(x, j) && Possible(x, j, e)
    ensures DrawInv(x, After(x, j, e))
  {
    hide GenerateOperationId, Advance, Enabled;
    var t := After(x, j, e);
    if e.Exec? {
      StepIndex(x.setup, j.s, e.task);
      StepPcs(x.setup, j.s, e.task, e.body);
      forall k: nat | k < |j.drawn|
        ensures j.drawn[k] < |t.s.pcs| && Started(t.s.pcs[j.drawn[k]])
      {
        StepKeepsStarted(x.setup, j.s, e.task, e.body, j.drawn[k]);
      }
    } else {
      CounterAdvances(|j.drawn|);
    }
  }

  lemma {:induction false} RunDrawInv(x: Shared, events: seq<Event>, joints: seq<Joint>, n: nat)
    requires IsJointRun(x, events, joints) && n < |joints|
    ensures DrawInv(x, joints[n])
  {
    if n > 0 {
      hide DrawInv, After, Possible;
      RunDrawInv(x, events, joints, n - 1);
      assert joints[n - 1 + 1] == After(x, joints[n - 1], events[n - 1]);
      StepDrawInv(x, joints[n - 1], events[n - 1]);
    } else {
      hide Init;
    }
  }

  /** The id of an item is that of the number of ids drawn before it, in every run. */
  lemma IdsByDrawOrder(x: Shared, events: seq<Event>, joints: seq<Joint>, n: nat, i: nat)
    requires IsJointRun(x, events, joints) && n < |joints| && i in joints[n].ids
    ensures exists k: nat :: k < |joints[n].drawn| && joints[n].drawn[k] == i
                             && joints[n].ids[i] == GenerateOperationId(x.hash, x.base, k % TWO64)
  {
    RunDrawInv(x, events, joints, n);
    assert i in joints[n].drawn;
    var k :| 0 <= k < |joints[n].drawn| && joints[n].drawn[k] == i;
  }

  /** The states of the executor in a joint run are those of a run of the executor. */
  lemma {:induction false} ExecutorRun(x: Shared, events: seq<Event>, joints: seq<Joint>, n: nat)
    returns (run: seq<State>)
    requires IsJointRun(x, events, joints) && n < |joints|
    ensures IsRun(x.setup, run) && |run| > 0 && run[|run| - 1] == joints[n].s
  {
    if n == 0 {
      run := [joints[0].s];
    } else {
      hide IsRun, Advance, Enabled;
      run := ExecutorRun(x, events, joints, n - 1);
      var e := events[n - 1];
      assert Possible(x, joints[n - 1], e) && joints[n - 1 + 1] == After(x, joints[n - 1], e);
      if e.Exec? {
        ExtendRun(x.setup, run, e.task, e.body);
        run := run + [Advance(x.setup, joints[n - 1].s, e.task, e.body)];
      }
    }
  }

  // ---------- when at most one body can run ----------

  /** Some schedule runs two bodies: there are two tasks, nothing decides the batch from the start, and there are two
      permits, or one and a batch that the first body need not decide. */
  predicate TwoBodiesPossible(setup: Setup) {
    && setup.tasks >= 2
    && !Decided(setup.config, setup.total, ZERO)
    && setup.maxConcurrency != Some(0)
    && (setup.maxConcurrency == Some(1) ==> setup.total >= 2)
  }

  /** Some schedule lets two bodies ask for ids. */
  ghost predicate TwoDrawsPossible(x: Shared) {
    TwoBodiesPossible(x.setup) && exists i: nat, k: nat :: i != k && Asks(x, i) && Asks(x, k)
  }

  ghost predicate AtMostOneStarted(s: State) {
    forall i, j :: 0 <= i < j < |s.pcs| ==> !(Started(s.pcs[i]) && Started(s.pcs[j]))
  }

  lemma {:induction false} CountTwo<A>(s: seq<A>, p: A -> bool, i: nat, j: nat)
    requires i < j < |s| && p(s[i]) && p(s[j])
    ensures Count(s, p) >= 2
  {
    if i > 0 {
      CountTwo(s[1..], p, i - 1, j - 1);
    } else {
      CountZero(s[1..], p);
      assert s[1..][j - 1] == s[j];
    }
  }

  /** One task has entered its body: then no other has, nor will. */
  ghost predicate Exclusive(setup: Setup, s: State) {
    && |s.pcs| == setup.tasks
    && forall i, j :: 0 <= i < |s.pcs| && 0 <= j < |s.pcs| && i != j && Started(s.pcs[i]) ==>
         !Started(s.pcs[j]) && (s.pcs[j].Waiting? || WillCancel(setup, s, j))
  }

  lemma CancelNotStarted(setup: Setup, s: State, j: nat)
    requires j < |s.pcs| && WillCancel(setup, s, j)
    ensures !Started(s.pcs[j]) && s.pcs[j] != Checking(Returned(None))
  {
  }

  /** With the only permit free, a task that has been in its body is done, and that decides a batch of one. */
  lemma DoneDecides(setup: Setup, s: State, i: nat)
    requires Inv(setup, s) && setup.maxConcurrency == Some(1) && setup.total <= 1 && s.free > 0
    requires i < |s.pcs| && Started(s.pcs[i])
    ensures Decided(setup.config, setup.total, s.counters)
  {
    hide Shape, MutexInv, Causes;
    CountZero(s.pcs, HoldsPermit);
    assert s.pcs[i].Done? && CountedOutcome(s.pcs[i]).Some?;
    CountZero(s.pcs, InCompleted);
    CountZero(s.pcs, InSuspended);
    assert InCompleted(s.pcs[i]) || InSuspended(s.pcs[i]);
  }

  lemma OneHolder(setup: Setup, s: State, i: nat, j: nat)
    requires Inv(setup, s) && setup.maxConcurrency == Some(1) && i < |s.pcs| && j < |s.pcs| && i != j
    requires HoldsPermit(s.pcs[i])
    ensures !HoldsPermit(s.pcs[j])
  {
    hide Shape, MutexInv, Causes, Tallies;
    if HoldsPermit(s.pcs[j]) {
      CountTwo(s.pcs, HoldsPermit, if i < j then i else j, if i < j then j else i);
    }
  }

  lemma StartsAt(setup: Setup, s: State, a: nat, body: Outcome)
    requires Enabled(setup, s, a)
    ensures var t := Advance(setup, s, a, body);
            && t.pcs == s.pcs[a := t.pcs[a]]
            && (Started(t.pcs[a]) ==> Started(s.pcs[a]) || s.pcs[a] == Checking(Returned(None)))
            && (s.pcs[a].Waiting? ==> t.pcs[a] == Checking(AtCompleted) && t.counters == s.counters && s.free + 1 > 0)
  {
  }

  lemma StepExclusivePair(setup: Setup, s: State, a: nat, body: Outcome, i: nat, j: nat)
    requires Inv(setup, s) && Exclusive(setup, s) && setup.maxConcurrency == Some(1) && setup.total <= 1
    requires Enabled(setup, s, a) && i < |s.pcs| && j < |s.pcs| && i != j
    requires Started(Advance(setup, s, a, body).pcs[i])
    ensures var t := Advance(setup, s, a, body);
            !Started(t.pcs[j]) && (t.pcs[j].Waiting? || WillCancel(setup, t, j))
  {
    hide Inv, Advance, WillCancel, Decided;
    var t := Advance(setup, s, a, body);
    StartsAt(setup, s, a, body);
    if a == i && !Started(s.pcs[i]) {
      assert s.pcs[i] == Checking(Returned(None));
      OneHolder(setup, s, i, j);
      if Started(s.pcs[j]) || WillCancel(setup, s, i) {
        CancelNotStarted(setup, s, i);
      }
      assert !Started(s.pcs[j]);
      IdleOrDone(setup, t, j);
    } else {
      assert Started(s.pcs[i]);
      if a == j && s.pcs[j].Waiting? {
        PermitFree(setup, s, j);
        DoneDecides(setup, s, i);
        WaitsDoomed(setup, s, j);
      }
      if WillCancel(setup, s, j) {
        StepKeepsWillCancel(setup, s, a, body, j);
        CancelNotStarted(setup, t, j);
      }
    }
  }

  lemma PermitFree(setup: Setup, s: State, i: nat)
    requires Enabled(setup, s, i) && s.pcs[i].Waiting? && setup.maxConcurrency.Some?
    ensures s.free > 0
  {
  }

  lemma WaitsDoomed(setup: Setup, s: State, j: nat)
    requires j < |s.pcs| && s.pcs[j].Waiting? && Decided(setup.config, setup.total, s.counters)
    ensures WillCancel(setup, s, j)
  {
  }

  lemma IdleOrDone(setup: Setup, t: State, j: nat)
    requires j < |t.pcs| && !HoldsPermit(t.pcs[j]) && !Started(t.pcs[j])
    ensures t.pcs[j].Waiting? || WillCancel(setup, t, j)
  {
  }

  lemma {:induction false} RunExclusive(setup: Setup, run: seq<State>, n: nat)
    requires setup.maxConcurrency == Some(1) && setup.total <= 1 && IsRun(setup, run) && n < |run|
    ensures Exclusive(setup, run[n])
  {
    hide Exclusive, Advance, Inv, Enabled, Init;
    if n == 0 {
      StartExclusive(setup);
    } else {
      RunExclusive(setup, run, n - 1);
      RunInv(setup, run, n - 1);
      assert Next(setup, run[n - 1], run[n - 1 + 1]);
      var a: nat, body: Outcome :| Enabled(setup, run[n - 1], a) && run[n] == Advance(setup, run[n - 1], a, body);
      StepExclusive(setup, run[n - 1], a, body);
    }
  }

  lemma StartExclusive(setup: Setup)
    ensures Exclusive(setup, Init(setup))
  {
  }

  lemma StepExclusive(setup: Setup, s: State, a: nat, body: Outcome)
    requires Inv(setup, s) && Exclusive(setup, s) && setup.maxConcurrency == Some(1) && setup.total <= 1
    requires Enabled(setup, s, a)
    ensures Exclusive(setup, Advance(setup, s, a, body))
  {
    hide Inv, Enabled, Advance, WillCancel, Started;
    var t := Advance(setup, s, a, body);
    StepIndex(setup, s, a);
    StepPcs(setup, s, a, body);
    forall i: nat, j: nat | i < |t.pcs| && j < |t.pcs| && i != j && Started(t.pcs[i])
      ensures !Started(t.pcs[j]) && (t.pcs[j].Waiting? || WillCancel(setup, t, j))
    {
      StepExclusivePair(setup, s, a, body, i, j);
    }
  }

  /** Where two bodies cannot run, no run enters two. */
  lemma OneBody(setup: Setup, run: seq<State>)
    requires !TwoBodiesPossible(setup) && IsRun(setup, run)
    ensures AtMostOneStarted(run[|run| - 1])
  {
    var n := |run| - 1;
    var s := run[n];
    RunInv(setup, run, n);
    assert |s.pcs| == setup.tasks;
    if setup.maxConcurrency == Some(0) {
      NobodyMoves(setup, run);
    } else if setup.tasks >= 2 && Decided(setup.config, setup.total, ZERO) {
      forall i: nat | i < setup.tasks
        ensures !Started(s.pcs[i])
      {
        WillCancelForever(setup, run, 0, n, i);
        CancelNotStarted(setup, s, i);
      }
    } else if setup.tasks >= 2 {
      RunExclusive(setup, run, n);
    }
  }

  lemma OneDraw(x: Shared, events: seq<Event>, joints: seq<Joint>)
    requires !TwoDrawsPossible(x) && IsJointRun(x, events, joints)
    ensures |joints[|events|].drawn| <= 1
  {
    var j := joints[|events|];
    RunDrawInv(x, events, joints, |events|);
    var run := ExecutorRun(x, events, joints, |events|);
    hide GenerateOperationId, TwoBodiesPossible;
    if |j.drawn| >= 2 {
      var a, b := j.drawn[0], j.drawn[1];
      assert Asks(x, a) && Asks(x, b) && a != b;
      assert Started(j.s.pcs[a]) && Started(j.s.pcs[b]) && (a < b || b < a);
      OneBody(x.setup, run);
    }
  }

  // ---------- when two can ----------

  lemma {:induction false} PlayJoint(x: Shared, events: seq<Event>, joints: seq<Joint>, moves: seq<Move>, t: State,
                                     may: nat -> bool)
    returns (longer: seq<Event>, joints2: seq<Joint>)
    requires IsJointRun(x, events, joints) && Plays(x.setup, joints[|events|].s, moves, t, may)
    requires forall i: nat :: may(i) ==> i in joints[|events|].ids
    ensures IsJointRun(x, longer, joints2) && joints2[|longer|] == joints[|events|].(s := t)
    decreases |moves|
  {
    hide Advance, Enabled;
    if moves == [] {
      longer, joints2 := events, joints;
    } else {
      var e := Exec(moves[0].task, moves[0].body);
      longer, joints2 := Happens(x, events, joints, e);
      longer, joints2 := PlayJoint(x, longer, joints2, moves[1..], t, may);
    }
  }

  lemma Happens(x: Shared, events: seq<Event>, joints: seq<Joint>, e: Event)
    returns (longer: seq<Event>, joints2: seq<Joint>)
    requires IsJointRun(x, events, joints) && Possible(x, joints[|events|], e)
    ensures IsJointRun(x, longer, joints2) && joints2[|longer|] == After(x, joints[|events|], e)
  {
    hide Possible, After;
    longer, joints2 := events + [e], joints + [After(x, joints[|events|], e)];
    assert forall n :: 0 <= n < |events| ==> longer[n] == events[n];
  }

  lemma LeadJoint(x: Shared, events: seq<Event>, joints: seq<Joint>, t: State, may: nat -> bool)
    returns (longer: seq<Event>, joints2: seq<Joint>)
    requires IsJointRun(x, events, joints) && Leads(x.setup, joints[|events|].s, t, may)
    requires forall i: nat :: may(i) ==> i in joints[|events|].ids
    ensures IsJointRun(x, longer, joints2) && joints2[|longer|] == joints[|events|].(s := t)
  {
    var moves: seq<Move> :| Plays(x.setup, joints[|events|].s, moves, t, may);
    longer, joints2 := PlayJoint(x, events, joints, moves, t, may);
  }

  lemma JointLength(x: Shared, events: seq<Event>, joints: seq<Joint>)
    requires IsJointRun(x, events, joints)
    ensures |joints| == |events| + 1
  {
  }

  /** A waiting task gets to its body and draws the next id. */
  lemma BodyDraws(x: Shared, events: seq<Event>, joints: seq<Joint>, i: nat)
    returns (longer: seq<Event>, joints2: seq<Joint>)
    requires IsJointRun(x, events, joints)
    requires var j := joints[|events|];
             && i < |j.s.pcs| == |j.s.items| && j.s.pcs[i].Waiting? && CanTakePermit(x.setup, j.s)
             && i !in j.ids && i !in x.silent
             && !Decided(x.setup.config, x.setup.total, j.s.counters)
    ensures IsJointRun(x, longer, joints2)
    ensures var j := joints[|events|];
            joints2[|longer|] == Joint(Entered(x.setup, j.s, i, Running), (j.counter + 1) % TWO64, j.drawn + [i],
                                       j.ids[i := GenerateOperationId(x.hash, x.base, j.counter)])
  {
    hide Leads, IsJointRun, Entered, CanTakePermit, Decided, GenerateOperationId;
    JointLength(x, events, joints);
    var j := joints[|events|];
    LeadsNowhere(x.setup, j.s, NOBODY);
    RunToBody(x.setup, j.s, j.s, i, NOBODY);
    EnteredPc(x.setup, j.s, i, Running);
    longer, joints2 := LeadJoint(x, events, joints, Entered(x.setup, j.s, i, Running), NOBODY);
    longer, joints2 := Happens(x, longer, joints2, Draw(i));
  }

  const NOBODY: nat -> bool := i => false

  lemma StartsJoint(x: Shared)
    ensures IsJointRun(x, [], [Start(x)])
  {
  }

  lemma InitialState(setup: Setup, i: nat)
    requires i < setup.tasks && setup.maxConcurrency != Some(0)
    ensures var s := Init(setup);
            && i < |s.pcs| == |s.items| && s.pcs[i].Waiting? && CanTakePermit(setup, s) && s.counters == ZERO
  {
  }

  lemma FirstDraws(x: Shared, i: nat) returns (events: seq<Event>, joints: seq<Joint>)
    requires TwoBodiesPossible(x.setup) && Asks(x, i)
    ensures InitialPermit(x.setup, i) && IsJointRun(x, events, joints)
    ensures joints[|events|] == Joint(Entered(x.setup, Init(x.setup), i, Running), 1, [i],
                                      map[i := GenerateOperationId(x.hash, x.base, 0)])
  {
    hide Decided, GenerateOperationId, IsJointRun;
    StartsJoint(x);
    InitialState(x.setup, i);
    events, joints := BodyDraws(x, [], [Start(x)], i);
  }

  predicate InitialPermit(setup: Setup, i: nat) {
    i < |Init(setup).pcs| && CanTakePermit(setup, Init(setup))
  }

  /** What the second task finds if there is a permit left for it. */
  lemma PermitLeft(setup: Setup, i: nat, k: nat)
    requires TwoBodiesPossible(setup) && setup.maxConcurrency != Some(1) && i != k && i < setup.tasks && k < setup.tasks
    ensures InitialPermit(setup, i)
    ensures var s := Entered(setup, Init(setup), i, Running);
            && k < |s.pcs| == |s.items| && s.pcs[k].Waiting? && CanTakePermit(setup, s)
            && !Decided(setup.config, setup.total, s.counters)
  {
  }

  /** What it finds if the first one has suspended. */
  lemma PermitBack(setup: Setup, i: nat, k: nat)
    requires TwoBodiesPossible(setup) && setup.maxConcurrency == Some(1) && i != k && i < setup.tasks && k < setup.tasks
    ensures InitialPermit(setup, i)
    ensures var s := Entered(setup, Init(setup), i, Running);
            && i < |s.pcs| == |s.items| && s.pcs[i].Running? && s.mutex.None?
            && var t := Finished(setup, s, i, Suspend);
               && k < |t.pcs| == |t.items| && t.pcs[k].Waiting? && CanTakePermit(setup, t)
               && !Decided(setup.config, setup.total, t.counters)
  {
  }

  /** After the first body has drawn, a second can draw too, and gets the second id. */
  lemma SecondDraws(x: Shared, i: nat, k: nat) returns (events: seq<Event>, joints: seq<Joint>)
    requires TwoBodiesPossible(x.setup) && i != k && Asks(x, i) && Asks(x, k)
    ensures IsJointRun(x, events, joints)
    ensures k in joints[|events|].ids && joints[|events|].ids[k] == GenerateOperationId(x.hash, x.base, 1)
  {
    hide Decided, GenerateOperationId, IsJointRun, Entered, Finished, Leads, CanTakePermit, Init;
    events, joints := FirstDraws(x, i);
    if x.setup.maxConcurrency == Some(1) {
      PermitBack(x.setup, i, k);
      var s := Entered(x.setup, Init(x.setup), i, Running);
      LeadsNowhere(x.setup, s, a => a == i);
      FinishBody(x.setup, s, s, i, Suspend, a => a == i);
      events, joints := LeadJoint(x, events, joints, Finished(x.setup, s, i, Suspend), a => a == i);
    } else {
      PermitLeft(x.setup, i, k);
    }
    events, joints := BodyDraws(x, events, joints, k);
  }

  /** With two runs some item gets two ids. */
  lemma TwoIds(x: Shared) returns (i: nat)
    requires TwoDrawsPossible(x)
    ensures Gets(x, i, GenerateOperationId(x.hash, x.base, 0)) && Gets(x, i, GenerateOperationId(x.hash, x.base, 1))
  {
    hide IsJointRun, GenerateOperationId, TwoBodiesPossible;
    var k: nat;
    i, k :| i != k && Asks(x, i) && Asks(x, k);
    var events, joints := FirstDraws(x, i);
    assert Gets(x, i, GenerateOperationId(x.hash, x.base, 0));
    var events2, joints2 := SecondDraws(x, k, i);
    assert Gets(x, i, GenerateOperationId(x.hash, x.base, 1));
  }

  /** Items keep their ids over all schedules exactly if no schedule lets two bodies ask for ids. */
  lemma StableIdsExactly(x: Shared)
    requires Apart(x.hash, Preimage(x.base, 0), Preimage(x.base, 1))
    ensures StableIds(x) <==> !TwoDrawsPossible(x)
  {
    hide GenerateOperationId, TwoDrawsPossible;
    IdsDetermineOrigin(x.hash, x.base, 0, x.base, 1);
    if TwoDrawsPossible(x) {
      var i := TwoIds(x);
    } else {
      forall i: nat, id: Text, id2: Text | Gets(x, i, id) && Gets(x, i, id2)
        ensures id == id2
      {
        OnlyFirstId(x, i, id);
        OnlyFirstId(x, i, id2);
      }
    }
  }

  lemma OnlyFirstId(x: Shared, i: nat, id: Text)
    requires !TwoDrawsPossible(x) && Gets(x, i, id)
    ensures id == GenerateOperationId(x.hash, x.base, 0)
  {
    hide GenerateOperationId, TwoDrawsPossible;
    var events: seq<Event>, joints: seq<Joint> :|
      IsJointRun(x, events, joints) && i in joints[|events|].ids && joints[|events|].ids[i] == id;
    OneDraw(x, events, joints);
    IdsByDrawOrder(x, events, joints, |events|, i);
  }
}
