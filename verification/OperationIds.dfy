/** context.rs: OperationIdGenerator, generate_operation_id, and the contexts that own generators. */
module OperationIds {
  import opened Options
  import opened Bytes

  /** A digest of Blake2b512. */
  type Digest = d: seq<Byte> | |d| == 64 witness seq(64, _ => 0)

  /** The hash is any function from byte strings to digests; what is needed of it is assumed where it is needed. */
  type Hash = seq<Byte> -> Digest

  function Preimage(base: Text, counter: U64): seq<Byte> {
    base + Le64(counter)
  }

  /** Hex of the first sixteen bytes of the digest. */
  function GenerateOperationId(hash: Hash, base: Text, counter: U64): (id: Text)
    ensures |id| == 32
  {
    HexOf(hash(Preimage(base, counter))[..16])
  }

  /** The hash keeps two preimages apart in the sixteen bytes that are used. */
  predicate Apart(hash: Hash, x: seq<Byte>, y: seq<Byte>) {
    hash(x)[..16] == hash(y)[..16] ==> x == y
  }

  /** With no collision between the two preimages, ids are equal only for the same base and counter. */
  lemma IdsDetermineOrigin(hash: Hash, base: Text, counter: U64, base2: Text, counter2: U64)
    requires Apart(hash, Preimage(base, counter), Preimage(base2, counter2))
    ensures GenerateOperationId(hash, base, counter) == GenerateOperationId(hash, base2, counter2) <==>
            base == base2 && counter == counter2
  {
    PreimageDecodes(base, counter, base2, counter2);
    HexReadsBack(hash(Preimage(base, counter))[..16]);
    HexReadsBack(hash(Preimage(base2, counter2))[..16]);
  }

  /** In full: the id is the hexadecimal text of the first sixteen bytes of the hash of the base and then the eight bytes of
      the counter. */
  lemma IdInFull(hash: Hash, base: Text, counter: U64)
    ensures GenerateOperationId(hash, base, counter) == HexOf(hash(base + Le64(counter))[..16])
    ensures Unhex(GenerateOperationId(hash, base, counter)) == Some(hash(base + Le64(counter))[..16])
  {
    HexReadsBack(hash(base + Le64(counter))[..16]);
  }

  class OperationIdGenerator {
    const hash: Hash
    const baseId: Text
    var stepCounter: U64

    constructor (hash: Hash, base: Text)
      ensures this.hash == hash && baseId == base && stepCounter == 0
    {
      this.hash := hash;
      baseId := base;
      stepCounter := 0;
    }

    constructor WithCounter(hash: Hash, base: Text, counter: U64)
      ensures this.hash == hash && baseId == base && stepCounter == counter
    {
      this.hash := hash;
      baseId := base;
      stepCounter := counter;
    }

    /** fetch_add wraps around. */
    method NextId() returns (id: Text)
      modifies this
      ensures id == GenerateOperationId(hash, baseId, old(stepCounter))
      ensures Unhex(id) == Some(hash(baseId + Le64(old(stepCounter)))[..16])
      ensures stepCounter == (old(stepCounter) + 1) % TWO64
    {
      IdInFull(hash, baseId, stepCounter);
      var counter := stepCounter;
      stepCounter := (stepCounter + 1) % TWO64;
      var text := Encode(hash(baseId + Le64(counter))[..16]);
      id := text;
    }

    method CreateChild(parentOperationId: Text) returns (child: OperationIdGenerator)
      ensures fresh(child) && child.hash == hash && child.baseId == parentOperationId && child.stepCounter == 0
    {
      child := new OperationIdGenerator(hash, parentOperationId);
    }

    /** A snapshot: the clone counts on its own from here. */
    method Clone() returns (clone: OperationIdGenerator)
      ensures fresh(clone) && clone.hash == hash && clone.baseId == baseId && clone.stepCounter == stepCounter
    {
      clone := new OperationIdGenerator.WithCounter(hash, baseId, stepCounter);
    }
  }

  datatype OperationIdentifier = OperationIdentifier(operationId: Text, parentId: Option<Text>, name: Option<Text>)

  class DurableContext {
    const parentId: Option<Text>
    const idGenerator: OperationIdGenerator

    constructor (hash: Hash, executionArn: Text)
      ensures parentId == None && fresh(idGenerator)
      ensures idGenerator.hash == hash && idGenerator.baseId == executionArn && idGenerator.stepCounter == 0
    {
      parentId := None;
      idGenerator := new OperationIdGenerator(hash, executionArn);
    }

    constructor Share(parentId: Option<Text>, idGenerator: OperationIdGenerator)
      ensures this.parentId == parentId && this.idGenerator == idGenerator
    {
      this.parentId := parentId;
      this.idGenerator := idGenerator;
    }

    method CreateChildContext(parentOperationId: Text) returns (child: DurableContext)
      ensures fresh(child) && fresh(child.idGenerator) && child.parentId == Some(parentOperationId)
      ensures child.idGenerator.hash == idGenerator.hash
      ensures child.idGenerator.baseId == parentOperationId && child.idGenerator.stepCounter == 0
    {
      var generator := new OperationIdGenerator(idGenerator.hash, parentOperationId);
      child := new DurableContext.Share(Some(parentOperationId), generator);
    }

    /** The clone shares the generator. */
    method Clone() returns (clone: DurableContext)
      ensures fresh(clone) && clone.parentId == parentId && clone.idGenerator == idGenerator
    {
      clone := new DurableContext.Share(parentId, idGenerator);
    }

    method NextOperationIdentifier(name: Option<Text>) returns (id: OperationIdentifier)
      modifies idGenerator
      ensures id.operationId ==
              GenerateOperationId(idGenerator.hash, idGenerator.baseId, old(idGenerator.stepCounter))
      ensures Unhex(id.operationId) ==
              Some(idGenerator.hash(idGenerator.baseId + Le64(old(idGenerator.stepCounter)))[..16])
      ensures id.parentId == parentId && id.name == name
      ensures idGenerator.stepCounter == (old(idGenerator.stepCounter) + 1) % TWO64
    {
      var operationId := idGenerator.NextId();
      id := OperationIdentifier(operationId, parentId, name);
    }
  }

  // ---------- clones ----------

  function NthPreimage(base: Text, counter: U64, j: nat): seq<Byte> {
    Preimage(base, (counter + j) % TWO64)
  }

  function NthId(hash: Hash, base: Text, counter: U64, j: nat): Text {
    GenerateOperationId(hash, base, (counter + j) % TWO64)
  }

  method TakeIds(g: OperationIdGenerator, n: nat) returns (ids: seq<Text>)
    modifies g
    ensures |ids| == n && g.stepCounter == (old(g.stepCounter) + n) % TWO64
    ensures forall j: nat :: j < n ==> ids[j] == NthId(g.hash, g.baseId, old(g.stepCounter), j)
  {
    ids := [];
    while |ids| < n
      invariant |ids| <= n && g.stepCounter == (old(g.stepCounter) + |ids|) % TWO64
      invariant forall j: nat :: j < |ids| ==> ids[j] == NthId(g.hash, g.baseId, old(g.stepCounter), j)
    {
      CounterAdvances(old(g.stepCounter) + |ids|);
      var id := g.NextId();
      ids := ids + [id];
    }
  }

  /** A cloned generator repeats every id that the original goes on to hand out. */
  method CloneOfGeneratorRepeats(g: OperationIdGenerator, n: nat) returns (ids: seq<Text>, cloned: seq<Text>)
    modifies g
    ensures |ids| == n && ids == cloned
    ensures forall j: nat :: j < n ==> ids[j] == NthId(g.hash, g.baseId, old(g.stepCounter), j)
  {
    var clone := g.Clone();
    ids := TakeIds(g, n);
    cloned := TakeIds(clone, n);
  }

  lemma NthIdsDiffer(hash: Hash, base: Text, counter: U64, j: nat, k: nat)
    requires j < k < TWO64 && Apart(hash, NthPreimage(base, counter, j), NthPreimage(base, counter, k))
    ensures NthId(hash, base, counter, j) != NthId(hash, base, counter, k)
  {
    RemaindersDiffer(counter + j, counter + k);
    IdsDetermineOrigin(hash, base, (counter + j) % TWO64, base, (counter + k) % TWO64);
  }

  lemma RemaindersDiffer(x: nat, y: nat)
    requires x < y < x + TWO64
    ensures x % TWO64 != y % TWO64
  {
    assert y - x == TWO64 * (y / TWO64 - x / TWO64) + y % TWO64 - x % TWO64;
  }

  /** The hash keeps the next n preimages of a generator apart. */
  ghost predicate NextApart(hash: Hash, base: Text, counter: U64, n: nat) {
    forall j: nat, k: nat :: j < k < n ==> Apart(hash, NthPreimage(base, counter, j), NthPreimage(base, counter, k))
  }

  ghost predicate PairwiseDistinct(ids: seq<OperationIdentifier>) {
    forall j, k :: 0 <= j < k < |ids| ==> ids[j].operationId != ids[k].operationId
  }

  /** A cloned context repeats none: the two count with one generator, whoever is asked when. turns[j] says whether the
      j-th call is made on the clone. */
  method CloneOfContextTakesTurns(ctx: DurableContext, turns: seq<bool>) returns (ids: seq<OperationIdentifier>)
    modifies ctx.idGenerator
    ensures |ids| == |turns|
    ensures var g := ctx.idGenerator;
            forall j: nat :: j < |ids| ==> ids[j].operationId == NthId(g.hash, g.baseId, old(g.stepCounter), j)
    ensures var g := ctx.idGenerator;
            |turns| <= TWO64 && NextApart(g.hash, g.baseId, old(g.stepCounter), |turns|) ==> PairwiseDistinct(ids)
    ensures forall j :: 0 <= j < |ids| ==> ids[j].parentId == ctx.parentId
  {
    hide NthId, NextApart;
    ghost var g, counter := ctx.idGenerator, ctx.idGenerator.stepCounter;
    var clone := ctx.Clone();
    ids := [];
    while |ids| < |turns|
      invariant |ids| <= |turns| && g.stepCounter == (counter + |ids|) % TWO64
      invariant forall j: nat :: j < |ids| ==> ids[j].operationId == NthId(g.hash, g.baseId, counter, j)
      invariant forall j :: 0 <= j < |ids| ==> ids[j].parentId == ctx.parentId
    {
      CounterAdvances(counter + |ids|);
      NthIdIs(g.hash, g.baseId, counter, |ids|);
      var id;
      if turns[|ids|] {
        id := clone.NextOperationIdentifier(None);
      } else {
        id := ctx.NextOperationIdentifier(None);
      }
      ids := ids + [id];
    }
    if |turns| <= TWO64 && NextApart(g.hash, g.baseId, counter, |turns|) {
      AllDiffer(g.hash, g.baseId, counter, ids);
    }
  }

  lemma NthIdIs(hash: Hash, base: Text, counter: U64, j: nat)
    ensures NthId(hash, base, counter, j) == GenerateOperationId(hash, base, (counter + j) % TWO64)
  {
  }

  lemma AllDiffer(hash: Hash, base: Text, counter: U64, ids: seq<OperationIdentifier>)
    requires |ids| <= TWO64 && NextApart(hash, base, counter, |ids|)
    requires forall j: nat :: j < |ids| ==> ids[j].operationId == NthId(hash, base, counter, j)
    ensures PairwiseDistinct(ids)
  {
    hide NthId, Apart, NthPreimage;
    forall j: nat, k: nat | j < k < |ids|
      ensures ids[j].operationId != ids[k].operationId
    {
      NthIdsDiffer(hash, base, counter, j, k);
    }
  }
}
