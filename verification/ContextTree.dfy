/** context.rs: the contexts of one execution, each with its own counter, under any interleaving. */
module ContextTree {
  import opened Bytes
  import opened OperationIds

  /** A context is named by how it came about: on a string (the root of the execution has the ARN), or on the id of an
      operation, by the index of that operation in its own context. Contexts that were made twice in the same way differ
      in copy. */
  datatype Name = Root(origin: Text, copy: nat) | Sub(parent: Name, index: nat, copy: nat)

  datatype Context = Context(base: Text, counter: U64)

  /** An id that was handed out: to whom, by which context, as the how-manieth. */
  datatype Issued = Issued(caller: Text, name: Name, index: nat, id: Text)

  datatype Tree = Tree(contexts: map<Name, Context>, log: seq<Issued>)

  /** Next is next_operation_id on a context. Child is create_child_context with the id of an earlier operation, and
      Open the same with any string. */
  datatype Event =
    | Next(name: Name, caller: Text)
    | Child(name: Name, index: nat, copy: nat)
    | Open(origin: Text, copy: nat)

  function Init(arn: Text): Tree {
    Tree(map[Root(arn, 0) := Context(arn, 0)], [])
  }

  ghost predicate Possible(t: Tree, e: Event) {
    match e
    case Next(name, _) => name in t.contexts
    case Child(name, index, copy) => Sub(name, index, copy) !in t.contexts && Given(t.log, name, index)
    case Open(origin, copy) => Root(origin, copy) !in t.contexts
  }

  /** The id that an operation of the log was given. */
  ghost function LoggedId(log: seq<Issued>, name: Name, index: nat): Text
    requires Given(log, name, index)
  {
    var k :| 0 <= k < |log| && log[k].name == name && log[k].index == index;
    log[k].id
  }

  ghost function Step(hash: Hash, t: Tree, e: Event): Tree
    requires Possible(t, e)
  {
    match e
    case Next(name, caller) =>
      var c := t.contexts[name];
      Tree(t.contexts[name := Context(c.base, (c.counter + 1) % TWO64)],
           t.log + [Issued(caller, name, |CallersOf(t.log, name)|, GenerateOperationId(hash, c.base, c.counter))])
    case Child(name, index, copy) =>
      Tree(t.contexts[Sub(name, index, copy) := Context(LoggedId(t.log, name, index), 0)], t.log)
    case Open(origin, copy) => Tree(t.contexts[Root(origin, copy) := Context(origin, 0)], t.log)
  }

  ghost predicate IsRun(hash: Hash, arn: Text, events: seq<Event>, trees: seq<Tree>) {
    && |trees| == |events| + 1
    && trees[0] == Init(arn)
    && forall j :: 0 <= j < |events| ==> Possible(trees[j], events[j]) && trees[j + 1] == Step(hash, trees[j], events[j])
  }

  // ---------- ids by position ----------

  /** The base of a context, by its name alone. */
  function BaseAt(hash: Hash, name: Name): Text {
    match name
    case Root(origin, _) => origin
    case Sub(parent, index, _) => GenerateOperationId(hash, BaseAt(hash, parent), index % TWO64)
  }

  function PreimageAt(hash: Hash, name: Name, index: nat): seq<Byte> {
    Preimage(BaseAt(hash, name), index % TWO64)
  }

  /** The id of an operation, by its position alone. */
  function IdAt(hash: Hash, name: Name, index: nat): Text {
    GenerateOperationId(hash, BaseAt(hash, name), index % TWO64)
  }

  /** The callers that a context gave ids to, in order. */
  function CallersOf(log: seq<Issued>, name: Name): seq<Text> {
    if log == [] then []
    else CallersOf(log[..|log| - 1], name) + if log[|log| - 1].name == name then [log[|log| - 1].caller] else []
  }

  /** The context has handed out its id number index. */
  ghost predicate Given(log: seq<Issued>, name: Name, index: nat) {
    exists k :: 0 <= k < |log| && log[k].name == name && log[k].index == index
  }

  ghost predicate GoodContext(hash: Hash, t: Tree, name: Name)
    requires name in t.contexts
  {
    && t.contexts[name] == Context(BaseAt(hash, name), |CallersOf(t.log, name)| % TWO64)
    && (name.Sub? ==> Given(t.log, name.parent, name.index))
  }

  /** What is true of entry k of the log. */
  ghost predicate GoodEntry(hash: Hash, log: seq<Issued>, k: nat)
    requires k < |log|
  {
    && log[k].index == |CallersOf(log[..k], log[k].name)|
    && log[k].id == IdAt(hash, log[k].name, log[k].index)
  }

  ghost predicate Inv(hash: Hash, t: Tree) {
    && (forall name :: name in t.contexts ==> GoodContext(hash, t, name))
    && (forall name :: name !in t.contexts ==> CallersOf(t.log, name) == [])
    && (forall k :: 0 <= k < |t.log| ==> GoodEntry(hash, t.log, k))
    && (forall k :: 0 <= k < |t.log| ==> t.log[k].name in t.contexts)
  }

  lemma CallersSnoc(log: seq<Issued>, e: Issued, name: Name)
    ensures CallersOf(log + [e], name) == CallersOf(log, name) + if e.name == name then [e.caller] else []
  {
    assert (log + [e])[..|log|] == log;
  }

  lemma EntryStays(hash: Hash, log: seq<Issued>, e: Issued, k: nat)
    requires k < |log| && GoodEntry(hash, log, k)
    ensures GoodEntry(hash, log + [e], k)
  {
    assert (log + [e])[..k] == log[..k];
  }

  lemma GivenStays(log: seq<Issued>, e: Issued, name: Name, index: nat)
    requires Given(log, name, index)
    ensures Given(log + [e], name, index)
  {
    var k :| 0 <= k < |log| && log[k].name == name && log[k].index == index;
    assert (log + [e])[k] == log[k];
  }

  lemma NewEntry(hash: Hash, t: Tree, name: Name, caller: Text)
    requires name in t.contexts && GoodContext(hash, t, name)
    ensures GoodEntry(hash, Step(hash, t, Next(name, caller)).log, |t.log|)
  {
    var u := Step(hash, t, Next(name, caller));
    assert u.log[..|t.log|] == t.log;
  }

  lemma NextContext(hash: Hash, t: Tree, name: Name, caller: Text, n: Name)
    requires name in t.contexts && n in t.contexts && GoodContext(hash, t, n)
    ensures GoodContext(hash, Step(hash, t, Next(name, caller)), n)
  {
    hide Given, CallersOf;
    var u := Step(hash, t, Next(name, caller));
    CallersSnoc(t.log, u.log[|t.log|], n);
    CounterAdvances(|CallersOf(t.log, n)|);
    if n.Sub? {
      GivenStays(t.log, u.log[|t.log|], n.parent, n.index);
    }
  }

  lemma NextInv(hash: Hash, t: Tree, name: Name, caller: Text)
    requires Inv(hash, t) && name in t.contexts
    ensures Inv(hash, Step(hash, t, Next(name, caller)))
  {
    hide GoodContext, GoodEntry;
    var u := Step(hash, t, Next(name, caller));
    var e := u.log[|t.log|];
    forall n | n in u.contexts
      ensures GoodContext(hash, u, n)
    {
      NextContext(hash, t, name, caller, n);
    }
    forall n | n !in u.contexts
      ensures CallersOf(u.log, n) == []
    {
      CallersSnoc(t.log, e, n);
    }
    forall k | 0 <= k < |u.log|
      ensures GoodEntry(hash, u.log, k)
    {
      if k < |t.log| {
        EntryStays(hash, t.log, e, k);
      } else {
        NewEntry(hash, t, name, caller);
      }
    }
  }

  /** The id in the log is the base that the child context should have. */
  lemma ChildBase(hash: Hash, t: Tree, name: Name, index: nat)
    requires Inv(hash, t) && Given(t.log, name, index)
    ensures LoggedId(t.log, name, index) == IdAt(hash, name, index)
  {
    hide GoodContext;
    var k :| 0 <= k < |t.log| && t.log[k].name == name && t.log[k].index == index
             && LoggedId(t.log, name, index) == t.log[k].id;
    assert GoodEntry(hash, t.log, k);
  }

  /** A context joins that has the base its name says and has served no one. */
  lemma JoinInv(hash: Hash, t: Tree, name: Name)
    requires Inv(hash, t) && name !in t.contexts && (name.Sub? ==> Given(t.log, name.parent, name.index))
    ensures Inv(hash, Tree(t.contexts[name := Context(BaseAt(hash, name), 0)], t.log))
  {
    hide Given, GoodEntry;
    var u := Tree(t.contexts[name := Context(BaseAt(hash, name), 0)], t.log);
    forall n | n in u.contexts
      ensures GoodContext(hash, u, n)
    {
      if n != name {
        assert GoodContext(hash, t, n);
      }
    }
  }

  lemma StepInv(hash: Hash, t: Tree, e: Event)
    requires Inv(hash, t) && Possible(t, e)
    ensures Inv(hash, Step(hash, t, e))
  {
    hide Inv, Given, LoggedId;
    match e
    case Next(name, caller) => NextInv(hash, t, name, caller);
    case Child(name, index, copy) =>
      ChildBase(hash, t, name, index);
      JoinInv(hash, t, Sub(name, index, copy));
    case Open(origin, copy) => JoinInv(hash, t, Root(origin, copy));
  }

  lemma {:induction false} RunInv(hash: Hash, arn: Text, events: seq<Event>, trees: seq<Tree>, j: nat)
    requires IsRun(hash, arn, events, trees) && j < |trees|
    ensures Inv(hash, trees[j])
  {
    if j > 0 {
      RunInv(hash, arn, events, trees, j - 1);
      assert trees[j - 1 + 1] == Step(hash, trees[j - 1], events[j - 1]);
      StepInv(hash, trees[j - 1], events[j - 1]);
    }
  }

  /** In every run, however the contexts interleave, the i-th id of a context is a function of its name and i. */
  lemma IdsByPosition(hash: Hash, arn: Text, events: seq<Event>, trees: seq<Tree>, k: nat)
    requires IsRun(hash, arn, events, trees) && k < |trees[|events|].log|
    ensures var log := trees[|events|].log;
            && log[k].index == |CallersOf(log[..k], log[k].name)|
            && log[k].id == IdAt(hash, log[k].name, log[k].index)
  {
    RunInv(hash, arn, events, trees, |events|);
    assert GoodEntry(hash, trees[|events|].log, k);
  }

  // ---------- schedules ----------

  lemma {:induction false} CallerAt(log: seq<Issued>, k: nat)
    requires k < |log|
    ensures |CallersOf(log[..k], log[k].name)| < |CallersOf(log, log[k].name)|
    ensures CallersOf(log, log[k].name)[|CallersOf(log[..k], log[k].name)|] == log[k].caller
  {
    var n := |log| - 1;
    if k < n {
      assert log[..n][..k] == log[..k];
      CallerAt(log[..n], k);
    }
  }

  /** Every caller on the list of a context has its entry. */
  lemma {:induction false} EntryFor(log: seq<Issued>, name: Name, index: nat) returns (k: nat)
    requires index < |CallersOf(log, name)|
    ensures k < |log| && log[k].name == name && |CallersOf(log[..k], name)| == index
    ensures log[k].caller == CallersOf(log, name)[index]
  {
    var n := |log| - 1;
    if index < |CallersOf(log[..n], name)| {
      k := EntryFor(log[..n], name, index);
      assert log[..n][..k] == log[..k];
    } else {
      k := n;
    }
  }

  /** Two histories in which every context served its callers in the same order. */
  ghost predicate SameOrders(log: seq<Issued>, log2: seq<Issued>) {
    forall name: Name :: CallersOf(log, name) == CallersOf(log2, name)
  }

  ghost predicate SubHistory(log: seq<Issued>, log2: seq<Issued>) {
    forall e :: e in log ==> e in log2
  }

  lemma SameOrdersGiveSameIds(hash: Hash, t: Tree, u: Tree)
    requires Inv(hash, t) && Inv(hash, u) && SameOrders(t.log, u.log)
    ensures SubHistory(t.log, u.log)
  {
    hide GoodContext;
    forall e | e in t.log
      ensures e in u.log
    {
      var k :| 0 <= k < |t.log| && t.log[k] == e;
      assert GoodEntry(hash, t.log, k);
      CallerAt(t.log, k);
      var l := EntryFor(u.log, e.name, e.index);
      assert GoodEntry(hash, u.log, l);
      assert u.log[l] == e;
    }
  }

  lemma SubHistoryOrders(hash: Hash, t: Tree, u: Tree, name: Name, i: nat)
    requires Inv(hash, t) && Inv(hash, u) && SubHistory(t.log, u.log) && i < |CallersOf(t.log, name)|
    ensures i < |CallersOf(u.log, name)| && CallersOf(u.log, name)[i] == CallersOf(t.log, name)[i]
  {
    hide GoodContext;
    var k := EntryFor(t.log, name, i);
    assert GoodEntry(hash, t.log, k);
    assert t.log[k] in u.log;
    var l :| 0 <= l < |u.log| && u.log[l] == t.log[k];
    assert GoodEntry(hash, u.log, l);
    CallerAt(u.log, l);
  }

  /** Schedule independence, exactly: two runs of one execution, however their contexts interleave, leave the same
      record of callers, positions and ids if and only if each context serves its own callers in the same order. */
  lemma ScheduleIndependence(hash: Hash, arn: Text, events: seq<Event>, trees: seq<Tree>, events2: seq<Event>,
                             trees2: seq<Tree>)
    requires IsRun(hash, arn, events, trees) && IsRun(hash, arn, events2, trees2)
    ensures var log, log2 := trees[|events|].log, trees2[|events2|].log;
            SameOrders(log, log2) <==> SubHistory(log, log2) && SubHistory(log2, log)
  {
    var t, u := trees[|events|], trees2[|events2|];
    RunInv(hash, arn, events, trees, |events|);
    RunInv(hash, arn, events2, trees2, |events2|);
    hide Inv, IsRun, CallersOf;
    if SameOrders(t.log, u.log) {
      SameOrdersGiveSameIds(hash, t, u);
      SameOrdersGiveSameIds(hash, u, t);
    }
    if SubHistory(t.log, u.log) && SubHistory(u.log, t.log) {
      forall name: Name
        ensures CallersOf(t.log, name) == CallersOf(u.log, name)
      {
        var a, b := CallersOf(t.log, name), CallersOf(u.log, name);
        if |a| > 0 {
          SubHistoryOrders(hash, t, u, name, |a| - 1);
        }
        if |b| > 0 {
          SubHistoryOrders(hash, u, t, name, |b| - 1);
        }
        forall i: nat | i < |a|
          ensures i < |b| && a[i] == b[i]
        {
          SubHistoryOrders(hash, t, u, name, i);
        }
      }
    }
  }

  // ---------- uniqueness over the execution ----------

  /** The hash has no collision between the preimages of the two histories, of which there are finitely many. */
  ghost predicate CollisionFree(hash: Hash, log: seq<Issued>, log2: seq<Issued>) {
    forall k, l :: 0 <= k < |log| && 0 <= l < |log2| ==>
      Apart(hash, PreimageAt(hash, log[k].name, log[k].index), PreimageAt(hash, log2[l].name, log2[l].index))
  }

  ghost predicate Distinct(log: seq<Issued>) {
    forall k, l :: 0 <= k < l < |log| ==> log[k].id != log[l].id
  }

  /** No counter has come round. */
  ghost predicate NoWrap(log: seq<Issued>) {
    forall k :: 0 <= k < |log| ==> log[k].index < TWO64
  }

  /** Two different contexts that have both issued ids have the same base. */
  ghost predicate SharedBase(hash: Hash, log: seq<Issued>) {
    exists k, l :: 0 <= k < |log| && 0 <= l < |log| && log[k].name != log[l].name
                   && BaseAt(hash, log[k].name) == BaseAt(hash, log[l].name)
  }

  /** Two entries of one context differ in index. */
  lemma PositionsDistinct(hash: Hash, t: Tree, k: nat, l: nat)
    requires Inv(hash, t) && k < l < |t.log|
    ensures t.log[k].name != t.log[l].name || t.log[k].index < t.log[l].index
  {
    hide GoodContext;
    assert GoodEntry(hash, t.log, k) && GoodEntry(hash, t.log, l);
    if t.log[k].name == t.log[l].name {
      CallerAt(t.log[..l], k);
      assert t.log[..l][..k] == t.log[..k];
    }
  }

  lemma EntryId(hash: Hash, t: Tree, k: nat)
    requires Inv(hash, t) && k < |t.log|
    ensures t.log[k].id == IdAt(hash, t.log[k].name, t.log[k].index)
  {
    assert GoodEntry(hash, t.log, k);
  }

  /** Beside entry k stand the entries of its context with smaller indices. */
  lemma EntryBelow(hash: Hash, t: Tree, k: nat, index: nat) returns (l: nat)
    requires Inv(hash, t) && k < |t.log| && index <= t.log[k].index
    ensures l < |t.log| && t.log[l].name == t.log[k].name && t.log[l].index == index
    ensures t.log[l].id == IdAt(hash, t.log[k].name, index)
  {
    hide GoodContext;
    assert GoodEntry(hash, t.log, k);
    CallerAt(t.log, k);
    l := EntryFor(t.log, t.log[k].name, index);
    assert GoodEntry(hash, t.log, l);
  }

  lemma ComesRound(n: nat)
    requires n >= TWO64
    ensures (n - TWO64) % TWO64 == n % TWO64
  {
  }

  /** An operation past the wrap has the id of the one 2^64 before it. */
  lemma WrapRepeats(hash: Hash, t: Tree, k: nat)
    requires Inv(hash, t) && k < |t.log| && t.log[k].index >= TWO64
    ensures !Distinct(t.log)
  {
    hide Inv, GenerateOperationId, BaseAt;
    var l := EntryBelow(hash, t, k, t.log[k].index - TWO64);
    EntryId(hash, t, k);
    ComesRound(t.log[k].index);
    assert l < k || k < l;
  }

  /** Contexts with one base repeat each other's first ids. */
  lemma SharedBaseRepeats(hash: Hash, t: Tree)
    requires Inv(hash, t) && SharedBase(hash, t.log)
    ensures !Distinct(t.log)
  {
    hide Inv, GenerateOperationId, BaseAt;
    var k, l :| 0 <= k < |t.log| && 0 <= l < |t.log| && t.log[k].name != t.log[l].name
                && BaseAt(hash, t.log[k].name) == BaseAt(hash, t.log[l].name);
    var m := EntryBelow(hash, t, k, 0);
    var n := EntryBelow(hash, t, l, 0);
    assert m < n || n < m;
  }

  /** Equal ids, in one history or two, come from equal bases and counters. */
  lemma SameIdSameOrigin(hash: Hash, t: Tree, u: Tree, k: nat, l: nat)
    requires Inv(hash, t) && Inv(hash, u) && CollisionFree(hash, t.log, u.log)
    requires k < |t.log| && l < |u.log| && t.log[k].id == u.log[l].id
    ensures BaseAt(hash, t.log[k].name) == BaseAt(hash, u.log[l].name)
    ensures t.log[k].index % TWO64 == u.log[l].index % TWO64
  {
    hide Inv, BaseAt, GenerateOperationId;
    var e, f := t.log[k], u.log[l];
    EntryId(hash, t, k);
    EntryId(hash, u, l);
    assert Apart(hash, PreimageAt(hash, e.name, e.index), PreimageAt(hash, f.name, f.index));
    IdsDetermineOrigin(hash, BaseAt(hash, e.name), e.index % TWO64, BaseAt(hash, f.name), f.index % TWO64);
  }

  /** Without a collision of the hash, ids are unique exactly if no counter has come round and no two contexts that have
      issued ids share a base. */
  lemma UniqueExactly(hash: Hash, arn: Text, events: seq<Event>, trees: seq<Tree>)
    requires IsRun(hash, arn, events, trees) && CollisionFree(hash, trees[|events|].log, trees[|events|].log)
    ensures var log := trees[|events|].log; Distinct(log) <==> NoWrap(log) && !SharedBase(hash, log)
  {
    var t := trees[|events|];
    RunInv(hash, arn, events, trees, |events|);
    hide Inv, IsRun, CollisionFree, SharedBase, Distinct;
    if !NoWrap(t.log) {
      var k :| 0 <= k < |t.log| && t.log[k].index >= TWO64;
      WrapRepeats(hash, t, k);
    } else if SharedBase(hash, t.log) {
      SharedBaseRepeats(hash, t);
    } else {
      OtherwiseDistinct(hash, t);
    }
  }

  lemma OtherwiseDistinct(hash: Hash, t: Tree)
    requires Inv(hash, t) && CollisionFree(hash, t.log, t.log) && NoWrap(t.log) && !SharedBase(hash, t.log)
    ensures Distinct(t.log)
  {
    hide Inv, CollisionFree, BaseAt, GenerateOperationId;
    forall k, l | 0 <= k < l < |t.log|
      ensures t.log[k].id != t.log[l].id
    {
      if t.log[k].id == t.log[l].id {
        SameIdSameOrigin(hash, t, t, k, l);
        PositionsDistinct(hash, t, k, l);
      }
    }
  }

  // ---------- when bases are shared ----------

  /** The name without the copy number at its end. */
  function Uncopied(name: Name): Name {
    match name
    case Root(origin, _) => Root(origin, 0)
    case Sub(parent, index, _) => Sub(parent, index, 0)
  }

  /** Two contexts made in the same way have both issued ids. */
  ghost predicate Doubled(log: seq<Issued>, log2: seq<Issued>) {
    exists k, l :: 0 <= k < |log| && 0 <= l < |log2| && log[k].name != log2[l].name
                   && Uncopied(log[k].name) == Uncopied(log2[l].name)
  }

  predicate ChildOf(name: Name, e: Issued) {
    name.Sub? && name.parent == e.name && name.index == e.index
  }

  /** A context made on a string has issued ids, and the string is the id of an operation of which a child context has
      issued ids. */
  ghost predicate OriginIsParent(log: seq<Issued>, log2: seq<Issued>) {
    exists k, l, m :: 0 <= k < |log| && 0 <= l < |log| && 0 <= m < |log2|
                      && ChildOf(log[l].name, log[k]) && log2[m].name.Root? && log2[m].name.origin == log[k].id
  }

  /** The operation that the context of entry k belongs to. */
  lemma ParentEntry(hash: Hash, t: Tree, k: nat) returns (p: nat)
    requires Inv(hash, t) && k < |t.log| && t.log[k].name.Sub?
    ensures p < |t.log| && ChildOf(t.log[k].name, t.log[p]) && t.log[p].id == BaseAt(hash, t.log[k].name)
  {
    hide GoodEntry, GenerateOperationId;
    var name := t.log[k].name;
    assert GoodContext(hash, t, name);
    p :| 0 <= p < |t.log| && t.log[p].name == name.parent && t.log[p].index == name.index;
    EntryId(hash, t, p);
  }

  /** Contexts that share a base are one context, unless they are doubled or one was made on the id of the other's
      operation. */
  lemma {:induction false} SameBaseSameName(hash: Hash, t: Tree, u: Tree, k: nat, l: nat)
    requires Inv(hash, t) && Inv(hash, u) && CollisionFree(hash, t.log, u.log) && NoWrap(t.log) && NoWrap(u.log)
    requires !Doubled(t.log, u.log) && !OriginIsParent(t.log, u.log) && !OriginIsParent(u.log, t.log)
    requires k < |t.log| && l < |u.log| && BaseAt(hash, t.log[k].name) == BaseAt(hash, u.log[l].name)
    ensures t.log[k].name == u.log[l].name
    decreases t.log[k].name
  {
    hide Inv, GenerateOperationId, CollisionFree;
    var n, m := t.log[k].name, u.log[l].name;
    if n.Sub? {
      var p := ParentEntry(hash, t, k);
      if m.Sub? {
        var q := ParentEntry(hash, u, l);
        SameIdSameOrigin(hash, t, u, p, q);
        SameBaseSameName(hash, t, u, p, q);
      }
    } else if m.Sub? {
      var q := ParentEntry(hash, u, l);
    }
    assert Uncopied(n) == Uncopied(m);
  }

  lemma CopiesShareBase(hash: Hash, n: Name, m: Name)
    requires Uncopied(n) == Uncopied(m)
    ensures BaseAt(hash, n) == BaseAt(hash, m)
  {
    hide GenerateOperationId;
  }

  lemma SharedWhenDoubled(hash: Hash, log: seq<Issued>)
    requires Doubled(log, log)
    ensures SharedBase(hash, log)
  {
    hide BaseAt, Uncopied;
    var k, l :| 0 <= k < |log| && 0 <= l < |log| && log[k].name != log[l].name
                && Uncopied(log[k].name) == Uncopied(log[l].name);
    CopiesShareBase(hash, log[k].name, log[l].name);
  }

  lemma ParentSharesBase(hash: Hash, t: Tree, k: nat, child: Name, root: Name)
    requires Inv(hash, t) && k < |t.log| && ChildOf(child, t.log[k]) && root.Root? && root.origin == t.log[k].id
    ensures BaseAt(hash, child) == BaseAt(hash, root)
  {
    hide Inv, GenerateOperationId;
    EntryId(hash, t, k);
  }

  lemma SharedWhenParent(hash: Hash, t: Tree)
    requires Inv(hash, t) && OriginIsParent(t.log, t.log)
    ensures SharedBase(hash, t.log)
  {
    hide Inv, BaseAt;
    var k, l, m :| 0 <= k < |t.log| && 0 <= l < |t.log| && 0 <= m < |t.log|
                   && ChildOf(t.log[l].name, t.log[k]) && t.log[m].name.Root? && t.log[m].name.origin == t.log[k].id;
    ParentSharesBase(hash, t, k, t.log[l].name, t.log[m].name);
    assert t.log[l].name != t.log[m].name;
  }

  /** Before a wrap, bases are shared in two ways only: by contexts made twice in the same way, and by a context made on a
      string that is the id of an operation with a child context. */
  lemma SharedExactly(hash: Hash, arn: Text, events: seq<Event>, trees: seq<Tree>)
    requires IsRun(hash, arn, events, trees) && CollisionFree(hash, trees[|events|].log, trees[|events|].log)
    requires NoWrap(trees[|events|].log)
    ensures var log := trees[|events|].log; SharedBase(hash, log) <==> Doubled(log, log) || OriginIsParent(log, log)
  {
    var t := trees[|events|];
    RunInv(hash, arn, events, trees, |events|);
    hide Inv, CollisionFree, BaseAt, NoWrap, Doubled, OriginIsParent;
    if Doubled(t.log, t.log) {
      SharedWhenDoubled(hash, t.log);
    } else if OriginIsParent(t.log, t.log) {
      SharedWhenParent(hash, t);
    } else if SharedBase(hash, t.log) {
      var k, l :| 0 <= k < |t.log| && 0 <= l < |t.log| && t.log[k].name != t.log[l].name
                  && BaseAt(hash, t.log[k].name) == BaseAt(hash, t.log[l].name);
      SameBaseSameName(hash, t, t, k, l);
    }
  }

  /** No id is this string. */
  predicate NotAnId(s: Text) { |s| != 32 || Unhex(s).None? }

  /** No context was made on a string that could be an id. */
  ghost predicate ProperOrigins(log: seq<Issued>) {
    forall k :: 0 <= k < |log| && log[k].name.Root? ==> NotAnId(log[k].name.origin)
  }

  lemma NotAParent(hash: Hash, t: Tree, log: seq<Issued>)
    requires Inv(hash, t) && ProperOrigins(log)
    ensures !OriginIsParent(t.log, log)
  {
    hide Inv, Unhex;
    forall k | 0 <= k < |t.log|
      ensures !NotAnId(t.log[k].id)
    {
      EntryId(hash, t, k);
      HexReadsBack(hash(PreimageAt(hash, t.log[k].name, t.log[k].index))[..16]);
    }
  }

  /** If no context was made on a string of 32 hexadecimal digits, as no ARN is, ids are unique exactly if no counter has
      come round and no operation has two child contexts with operations. */
  lemma UniqueForRealArns(hash: Hash, arn: Text, events: seq<Event>, trees: seq<Tree>)
    requires IsRun(hash, arn, events, trees) && CollisionFree(hash, trees[|events|].log, trees[|events|].log)
    requires ProperOrigins(trees[|events|].log)
    ensures var log := trees[|events|].log; Distinct(log) <==> NoWrap(log) && !Doubled(log, log)
  {
    var t := trees[|events|];
    RunInv(hash, arn, events, trees, |events|);
    UniqueExactly(hash, arn, events, trees);
    NotAParent(hash, t, t.log);
    hide Inv, IsRun;
    if NoWrap(t.log) {
      SharedExactly(hash, arn, events, trees);
    }
  }

  // ---------- replay ----------

  /** The caller has been given the id. */
  ghost predicate Assigned(log: seq<Issued>, caller: Text, id: Text) {
    exists l :: 0 <= l < |log| && log[l].caller == caller && log[l].id == id
  }

  /** Everything that log gave out, log2 gave to the same caller. */
  ghost predicate SameAssignments(log: seq<Issued>, log2: seq<Issued>) {
    forall k :: 0 <= k < |log| ==> Assigned(log2, log[k].caller, log[k].id)
  }

  lemma AssignmentsGiveHistory(hash: Hash, t: Tree, u: Tree)
    requires Inv(hash, t) && Inv(hash, u) && CollisionFree(hash, t.log, u.log) && NoWrap(t.log) && NoWrap(u.log)
    requires !Doubled(t.log, u.log) && !OriginIsParent(t.log, u.log) && !OriginIsParent(u.log, t.log)
    requires SameAssignments(t.log, u.log)
    ensures SubHistory(t.log, u.log)
  {
    hide Inv, CollisionFree, Doubled, OriginIsParent;
    forall e | e in t.log
      ensures e in u.log
    {
      var k :| 0 <= k < |t.log| && t.log[k] == e;
      assert Assigned(u.log, e.caller, e.id);
      var l :| 0 <= l < |u.log| && u.log[l].caller == e.caller && u.log[l].id == e.id;
      SameIdSameOrigin(hash, t, u, k, l);
      SameBaseSameName(hash, t, u, k, l);
      assert u.log[l] == e;
    }
  }

  lemma HistoryGivesAssignments(log: seq<Issued>, log2: seq<Issued>)
    requires SubHistory(log, log2)
    ensures SameAssignments(log, log2)
  {
    forall k | 0 <= k < |log|
      ensures Assigned(log2, log[k].caller, log[k].id)
    {
      assert log[k] in log2;
      var l :| 0 <= l < |log2| && log2[l] == log[k];
    }
  }

  lemma DoubledIsSymmetric(log: seq<Issued>, log2: seq<Issued>)
    ensures Doubled(log, log2) <==> Doubled(log2, log)
  {
  }

  /** What replay needs, exactly: callers find their ids again in another run if and only if each context serves its
      callers in the same order. That a caller got the same id says nothing of positions; the hash keeps those apart. */
  lemma ReplayExactly(hash: Hash, arn: Text, events: seq<Event>, trees: seq<Tree>, events2: seq<Event>, trees2: seq<Tree>)
    requires IsRun(hash, arn, events, trees) && IsRun(hash, arn, events2, trees2)
    requires var log, log2 := trees[|events|].log, trees2[|events2|].log;
             && CollisionFree(hash, log, log2) && CollisionFree(hash, log2, log)
             && NoWrap(log) && NoWrap(log2) && !Doubled(log, log2) && ProperOrigins(log) && ProperOrigins(log2)
    ensures var log, log2 := trees[|events|].log, trees2[|events2|].log;
            SameOrders(log, log2) <==> SameAssignments(log, log2) && SameAssignments(log2, log)
  {
    var t, u := trees[|events|], trees2[|events2|];
    RunInv(hash, arn, events, trees, |events|);
    RunInv(hash, arn, events2, trees2, |events2|);
    ScheduleIndependence(hash, arn, events, trees, events2, trees2);
    NotAParent(hash, t, u.log);
    NotAParent(hash, u, t.log);
    DoubledIsSymmetric(t.log, u.log);
    hide Inv, IsRun, SameOrders, SubHistory, SameAssignments, CollisionFree, NoWrap, Doubled, OriginIsParent;
    if SameAssignments(t.log, u.log) && SameAssignments(u.log, t.log) {
      AssignmentsGiveHistory(hash, t, u);
      AssignmentsGiveHistory(hash, u, t);
    }
    if SubHistory(t.log, u.log) && SubHistory(u.log, t.log) {
      HistoryGivesAssignments(t.log, u.log);
      HistoryGivesAssignments(u.log, t.log);
    }
  }

  // ---------- ways to lose it ----------

  lemma Extend(hash: Hash, arn: Text, events: seq<Event>, trees: seq<Tree>, e: Event) returns (longer: seq<Tree>)
    requires IsRun(hash, arn, events, trees) && Possible(trees[|events|], e)
    ensures IsRun(hash, arn, events + [e], longer)
    ensures longer[|events| + 1] == Step(hash, trees[|events|], e)
  {
    hide Possible, Step;
    longer := trees + [Step(hash, trees[|events|], e)];
    assert forall j :: 0 <= j < |events| ==> (events + [e])[j] == events[j];
  }

  /** The tree at the end of a run. */
  function Last(trees: seq<Tree>): Tree
    requires |trees| > 0
  {
    trees[|trees| - 1]
  }

  lemma Begin(hash: Hash, arn: Text)
    ensures IsRun(hash, arn, [], [Init(arn)])
    ensures Last([Init(arn)]).log == [] && Last([Init(arn)]).contexts.Keys == {Root(arn, 0)}
  {
  }

  lemma Serve(hash: Hash, arn: Text, events: seq<Event>, trees: seq<Tree>, name: Name, caller: Text)
    returns (longer: seq<Tree>)
    requires IsRun(hash, arn, events, trees) && name in Last(trees).contexts
    ensures |longer| > 0 && IsRun(hash, arn, events + [Next(name, caller)], longer)
    ensures Last(longer).contexts.Keys == Last(trees).contexts.Keys
    ensures var log, index := Last(trees).log, |CallersOf(Last(trees).log, name)|;
            Last(longer).log == log + [Issued(caller, name, index, IdAt(hash, name, index))]
  {
    hide GenerateOperationId;
    RunInv(hash, arn, events, trees, |events|);
    assert GoodContext(hash, Last(trees), name);
    longer := Extend(hash, arn, events, trees, Next(name, caller));
  }

  lemma Derive(hash: Hash, arn: Text, events: seq<Event>, trees: seq<Tree>, name: Name, index: nat, copy: nat)
    returns (longer: seq<Tree>)
    requires IsRun(hash, arn, events, trees)
    requires Given(Last(trees).log, name, index) && Sub(name, index, copy) !in Last(trees).contexts
    ensures |longer| > 0 && IsRun(hash, arn, events + [Child(name, index, copy)], longer)
    ensures Last(longer).log == Last(trees).log
    ensures Last(longer).contexts.Keys == Last(trees).contexts.Keys + {Sub(name, index, copy)}
  {
    hide Given, LoggedId;
    longer := Extend(hash, arn, events, trees, Child(name, index, copy));
  }

  lemma Reopen(hash: Hash, arn: Text, events: seq<Event>, trees: seq<Tree>, origin: Text, copy: nat)
    returns (longer: seq<Tree>)
    requires IsRun(hash, arn, events, trees) && Root(origin, copy) !in Last(trees).contexts
    ensures |longer| > 0 && IsRun(hash, arn, events + [Open(origin, copy)], longer)
    ensures Last(longer).log == Last(trees).log
    ensures Last(longer).contexts.Keys == Last(trees).contexts.Keys + {Root(origin, copy)}
  {
    longer := Extend(hash, arn, events, trees, Open(origin, copy));
  }

  lemma StartsEmpty(log: seq<Issued>, name: Name)
    requires forall k :: 0 <= k < |log| ==> log[k].name != name
    ensures CallersOf(log, name) == []
  {
    if log != [] {
      StartsEmpty(log[..|log| - 1], name);
    }
  }

  /** create_child_context called twice with the id of one operation: the children repeat each other. */
  lemma SecondChildRepeats(hash: Hash, arn: Text, a: Text, b: Text, c: Text)
    returns (events: seq<Event>, trees: seq<Tree>)
    ensures var root := Root(arn, 0);
            events == [Next(root, a), Child(root, 0, 0), Child(root, 0, 1), Next(Sub(root, 0, 0), b),
                       Next(Sub(root, 0, 1), c)]
    ensures IsRun(hash, arn, events, trees)
    ensures var log := Last(trees).log;
            |log| == 3 && log[1].caller == b && log[2].caller == c && log[1].id == log[2].id
  {
    hide IsRun, GenerateOperationId, CallersOf, IdAt, Last;
    var root := Root(arn, 0);
    var first, second := Sub(root, 0, 0), Sub(root, 0, 1);
    Begin(hash, arn);
    StartsEmpty([], root);
    events, trees := [], [Init(arn)];
    trees := Serve(hash, arn, events, trees, root, a);
    events := events + [Next(root, a)];
    var log := Last(trees).log;
    assert log[0].name == root && log[0].index == 0;
    trees := Derive(hash, arn, events, trees, root, 0, 0);
    events := events + [Child(root, 0, 0)];
    trees := Derive(hash, arn, events, trees, root, 0, 1);
    events := events + [Child(root, 0, 1)];
    StartsEmpty(log, first);
    trees := Serve(hash, arn, events, trees, first, b);
    events := events + [Next(first, b)];
    StartsEmpty(Last(trees).log, second);
    trees := Serve(hash, arn, events, trees, second, c);
    events := events + [Next(second, c)];
    SameFirstId(hash, first, second);
  }

  /** create_child_context called with a string that is the id of an operation with a child context, the other way in
      which bases are shared: the two repeat each other as well. */
  lemma OpenedOnIdRepeats(hash: Hash, arn: Text, a: Text, b: Text, c: Text)
    returns (events: seq<Event>, trees: seq<Tree>)
    ensures var root, other := Root(arn, 0), Root(IdAt(hash, Root(arn, 0), 0), 1);
            events == [Next(root, a), Child(root, 0, 0), Open(other.origin, 1), Next(Sub(root, 0, 0), b),
                       Next(other, c)]
    ensures IsRun(hash, arn, events, trees)
    ensures var log := Last(trees).log;
            |log| == 3 && log[1].caller == b && log[2].caller == c && log[1].id == log[2].id
  {
    hide IsRun, GenerateOperationId, CallersOf, IdAt, Last;
    var root := Root(arn, 0);
    var child, other := Sub(root, 0, 0), Root(IdAt(hash, root, 0), 1);
    Begin(hash, arn);
    StartsEmpty([], root);
    events, trees := [], [Init(arn)];
    trees := Serve(hash, arn, events, trees, root, a);
    events := events + [Next(root, a)];
    var log := Last(trees).log;
    assert log[0].name == root && log[0].index == 0;
    trees := Derive(hash, arn, events, trees, root, 0, 0);
    events := events + [Child(root, 0, 0)];
    trees := Reopen(hash, arn, events, trees, other.origin, 1);
    events := events + [Open(other.origin, 1)];
    StartsEmpty(log, child);
    trees := Serve(hash, arn, events, trees, child, b);
    events := events + [Next(child, b)];
    StartsEmpty(Last(trees).log, other);
    trees := Serve(hash, arn, events, trees, other, c);
    events := events + [Next(other, c)];
    OpenedFirstId(hash, root);
  }

  lemma OpenedFirstId(hash: Hash, root: Name)
    ensures IdAt(hash, Sub(root, 0, 0), 0) == IdAt(hash, Root(IdAt(hash, root, 0), 1), 0)
  {
    hide GenerateOperationId;
  }

  lemma SameFirstId(hash: Hash, n: Name, m: Name)
    requires Uncopied(n) == Uncopied(m)
    ensures IdAt(hash, n, 0) == IdAt(hash, m, 0)
  {
    hide BaseAt;
    CopiesShareBase(hash, n, m);
  }

  /** Two callers of one context, in this order. */
  lemma ServeTwo(hash: Hash, arn: Text, a: Text, b: Text) returns (trees: seq<Tree>)
    ensures |trees| > 0 && IsRun(hash, arn, [Next(Root(arn, 0), a), Next(Root(arn, 0), b)], trees)
    ensures var root := Root(arn, 0);
            Last(trees).log == [Issued(a, root, 0, IdAt(hash, root, 0)), Issued(b, root, 1, IdAt(hash, root, 1))]
  {
    hide IsRun, GenerateOperationId, CallersOf, IdAt, Last;
    var root := Root(arn, 0);
    Begin(hash, arn);
    StartsEmpty([], root);
    trees := Serve(hash, arn, [], [Init(arn)], root, a);
    CallersSnoc([], Last(trees).log[0], root);
    assert [] + [Last(trees).log[0]] == Last(trees).log;
    trees := Serve(hash, arn, [] + [Next(root, a)], trees, root, b);
    assert [] + [Next(root, a)] + [Next(root, b)] == [Next(root, a), Next(root, b)];
  }

  /** One context that serves two callers in the other order gives each the id of the other. */
  lemma SwappedCallers(hash: Hash, arn: Text, a: Text, b: Text) returns (trees: seq<Tree>, trees2: seq<Tree>)
    requires Apart(hash, Preimage(arn, 0), Preimage(arn, 1))
    ensures var root := Root(arn, 0);
            IsRun(hash, arn, [Next(root, a), Next(root, b)], trees) &&
            IsRun(hash, arn, [Next(root, b), Next(root, a)], trees2)
    ensures var log, log2 := Last(trees).log, Last(trees2).log;
            && |log| == 2 == |log2|
            && log[0].caller == a == log2[1].caller && log[0].id == log2[0].id != log2[1].id
            && log[1].caller == b == log2[0].caller && log[1].id == log2[1].id != log2[0].id
  {
    hide IsRun, GenerateOperationId;
    trees := ServeTwo(hash, arn, a, b);
    trees2 := ServeTwo(hash, arn, b, a);
    IdsDetermineOrigin(hash, arn, 0, arn, 1);
  }
}
