/** context.rs: the contexts of one execution as objects. Whatever is called on them, in any order, they are the tree of
    contexts. */
module Execution {
  import opened Bytes
  import opened OperationIds
  import opened ContextTree

  /** contexts and log are the history that names the objects and records their ids. */
  class Execution {
    const hash: Hash
    var contexts: map<Name, DurableContext>
    var log: seq<Issued>

    function Generators(): set<OperationIdGenerator>
      reads this
    {
      set name | name in contexts :: contexts[name].idGenerator
    }

    /** Contexts with different names have different generators. */
    ghost predicate Valid()
      reads this
    {
      && (forall name :: name in contexts ==> contexts[name].idGenerator.hash == hash)
      && (forall n, m :: n in contexts && m in contexts && n != m ==>
            contexts[n].idGenerator != contexts[m].idGenerator)
    }

    ghost function View(): Tree
      reads this, Generators()
    {
      Tree(map name | name in contexts ::
             Context(contexts[name].idGenerator.baseId, contexts[name].idGenerator.stepCounter), log)
    }

    constructor (hash: Hash, executionArn: Text)
      ensures Valid() && View() == Init(executionArn) && this.hash == hash
      ensures fresh(Generators())
    {
      var root := new DurableContext(hash, executionArn);
      this.hash := hash;
      contexts := map[Root(executionArn, 0) := root];
      log := [];
    }

    /** next_operation_identifier on the context of that name. */
    method NextOperationIdentifier(name: Name, caller: Text) returns (id: OperationIdentifier)
      requires Valid() && Possible(View(), Next(name, caller))
      modifies this, contexts[name].idGenerator
      ensures Valid() && Generators() == old(Generators())
      ensures View() == Step(hash, old(View()), Next(name, caller))
      ensures log == old(log) + [Issued(caller, name, |CallersOf(old(log), name)|, id.operationId)]
    {
      hide GenerateOperationId, Unhex, Le64, CallersOf;
      id := contexts[name].NextOperationIdentifier(Options.None);
      log := log + [Issued(caller, name, |CallersOf(log, name)|, id.operationId)];
    }

    /** create_child_context with the id that an earlier operation was given; any context may be asked. */
    method CreateChildContext(on: DurableContext, parentOperationId: Text, name: Name, index: nat, copy: nat)
      requires Valid() && on.idGenerator.hash == hash
      requires Possible(View(), Child(name, index, copy)) && parentOperationId == LoggedId(log, name, index)
      modifies this
      ensures Valid() && fresh(Generators() - old(Generators()))
      ensures View() == Step(hash, old(View()), Child(name, index, copy))
    {
      var child := on.CreateChildContext(parentOperationId);
      contexts := contexts[Sub(name, index, copy) := child];
    }

    /** create_child_context with any string. */
    method OpenContext(on: DurableContext, origin: Text, copy: nat)
      requires Valid() && on.idGenerator.hash == hash
      requires Possible(View(), Open(origin, copy))
      modifies this
      ensures Valid() && fresh(Generators() - old(Generators()))
      ensures View() == Step(hash, old(View()), Open(origin, copy))
    {
      var child := on.CreateChildContext(origin);
      contexts := contexts[Root(origin, copy) := child];
    }
  }
}
