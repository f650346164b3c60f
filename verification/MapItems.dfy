/** handlers/map.rs: the body of a map task takes the first item of its batch and drops the rest. */
module MapItems {
  import opened ItemBatching

  /** Some body processes item k: a batch starts there that is not empty. */
  ghost predicate Processed<T>(batches: seq<Chunk<T>>, k: nat) {
    exists j :: 0 <= j < |batches| && batches[j].start == k && batches[j].items != []
  }

  /** No item is dropped. */
  ghost predicate AllProcessed<T>(batches: seq<Chunk<T>>, items: seq<T>) {
    forall k: nat :: k < |items| ==> Processed(batches, k)
  }

  ghost predicate Singletons<T>(parts: seq<seq<T>>) {
    forall j :: 0 <= j < |parts| ==> |parts[j]| == 1
  }

  /** No two neighbours may share a batch. */
  ghost predicate NoPairs<T>(limits: Limits<T>, items: seq<T>) {
    limits.maxItems == 1
    || forall k, l :: 0 <= k && l == k + 1 < |items| ==> limits.size(items[k]) + limits.size(items[l]) > limits.maxBytes
  }

  /** Batch j holds the item it starts at. */
  lemma StartsWith<T>(batches: seq<Chunk<T>>, items: seq<T>, j: nat)
    requires Faithful(batches, items) && j < |batches|
    ensures batches[j].start == Start(Lists(batches), j)
    ensures batches[j].items != [] ==> batches[j].start < |items| && batches[j].items[0] == items[batches[j].start]
  {
    PartIsSlice(Lists(batches), j);
  }

  /** What the body of batch j processes is the item of the index it is called with. */
  lemma ProcessedItem<T>(batches: seq<Chunk<T>>, items: seq<T>, k: nat)
    requires Faithful(batches, items) && Processed(batches, k)
    ensures k < |items| && exists j :: 0 <= j < |batches| && batches[j].items != [] && batches[j].items[0] == items[k]
  {
    var j :| 0 <= j < |batches| && batches[j].start == k && batches[j].items != [];
    StartsWith(batches, items, j);
  }

  lemma StartOfNone<T>(parts: seq<seq<T>>)
    ensures Start(parts, 0) == 0 && Start(parts, |parts|) == |Flatten(parts)|
  {
    assert parts[..0] == [] && parts[..|parts|] == parts;
  }

  lemma {:induction false} StartsRise<T>(parts: seq<seq<T>>, i: nat, j: nat)
    requires i <= j <= |parts|
    ensures Start(parts, i) <= Start(parts, j)
    decreases j
  {
    hide Start, Flatten;
    if i < j {
      StartsRise(parts, i, j - 1);
      PartIsSlice(parts, j - 1);
    }
  }

  lemma {:induction false} SingletonsStart<T>(parts: seq<seq<T>>, j: nat)
    requires Singletons(parts) && j <= |parts|
    ensures Start(parts, j) == j
  {
    hide Start, Flatten;
    if j == 0 {
      StartOfNone(parts);
    } else {
      SingletonsStart(parts, j - 1);
      PartIsSlice(parts, j - 1);
    }
  }

  /** Batches of one process every item. */
  lemma SingletonsProcessAll<T>(batches: seq<Chunk<T>>, items: seq<T>)
    requires Faithful(batches, items) && Singletons(Lists(batches))
    ensures AllProcessed(batches, items)
  {
    hide Start, Flatten;
    var parts := Lists(batches);
    SingletonsStart(parts, |parts|);
    StartOfNone(parts);
    assert |items| == |batches| by { FlattenIs(batches, items); }
    forall k: nat | k < |items|
      ensures Processed(batches, k)
    {
      SingletonsStart(parts, k);
      StartsWith(batches, items, k);
      assert |parts[k]| == 1;
    }
  }

  lemma FlattenIs<T>(batches: seq<Chunk<T>>, items: seq<T>)
    requires Faithful(batches, items)
    ensures Flatten(Lists(batches)) == items
  {
  }

  /** The second item of a batch is no batch's first. */
  lemma SecondIsDropped<T>(batches: seq<Chunk<T>>, items: seq<T>, j: nat)
    requires Faithful(batches, items) && j < |batches| && |batches[j].items| >= 2
    ensures batches[j].start + 1 < |items| && !Processed(batches, batches[j].start + 1)
  {
    hide Start, Flatten, Faithful;
    var parts := Lists(batches);
    FlattenIs(batches, items);
    StartsWith(batches, items, j);
    PartIsSlice(parts, j);
    forall i: nat | i < |batches|
      ensures batches[i].start != batches[j].start + 1
    {
      StartsWith(batches, items, i);
      if i <= j {
        StartsRise(parts, i, j);
      } else {
        StartsRise(parts, j + 1, i);
      }
    }
  }

  /** Every item is processed exactly if every batch is a singleton. */
  lemma AllProcessedExactly<T>(batches: seq<Chunk<T>>, items: seq<T>)
    requires Faithful(batches, items) && forall j :: 0 <= j < |batches| ==> batches[j].items != []
    ensures AllProcessed(batches, items) <==> Singletons(Lists(batches))
  {
    hide Faithful;
    if Singletons(Lists(batches)) {
      SingletonsProcessAll(batches, items);
    } else {
      var j: nat :| j < |batches| && |Lists(batches)[j]| != 1;
      SecondIsDropped(batches, items, j);
    }
  }

  lemma BytesOfTwo<T>(part: seq<T>, size: T -> nat)
    requires |part| == 2
    ensures Bytes(part, size) == size(part[0]) + size(part[1])
  {
    OneItem(part[0], size);
    BytesSnoc([part[0]], part[1], size);
    assert part == [part[0]] + [part[1]];
  }

  /** A greedy part of two items or more starts with a pair that fits. */
  lemma PairFits<T>(limits: Limits<T>, part: seq<T>)
    requires limits.Fits(part) && |part| >= 2
    ensures limits.maxItems >= 2 && limits.size(part[0]) + limits.size(part[1]) <= limits.maxBytes
  {
    hide Bytes;
    BytesOfSlice(part, 0, 2, limits.size);
    BytesOfTwo(part[0..2], limits.size);
  }

  /** Neighbours that go into different batches of one do not fit together. */
  lemma PairTooLarge<T>(limits: Limits<T>, a: T, b: T)
    requires !limits.Fits([a] + [b])
    ensures limits.maxItems <= 1 || limits.size(a) + limits.size(b) > limits.maxBytes
  {
    hide Bytes;
    BytesOfTwo([a] + [b], limits.size);
  }

  lemma GreedySingletonsExactly<T>(limits: Limits<T>, parts: seq<seq<T>>)
    requires limits.maxItems >= 1 && Greedy(limits, parts)
    ensures Singletons(parts) <==> NoPairs(limits, Flatten(parts))
  {
    hide Start, Flatten, Limits.Fits;
    var items := Flatten(parts);
    StartOfNone(parts);
    if Singletons(parts) && limits.maxItems != 1 {
      SingletonsStart(parts, |parts|);
      forall k: nat, l: nat | l == k + 1 < |items|
        ensures limits.size(items[k]) + limits.size(items[l]) > limits.maxBytes
      {
        SingletonIs(parts, k);
        SingletonIs(parts, l);
        PairTooLarge(limits, items[k], items[l]);
      }
    }
    if !Singletons(parts) {
      var j: nat :| j < |parts| && |parts[j]| != 1;
      PairFits(limits, parts[j]);
      PartIsSlice(parts, j);
      var k := Start(parts, j);
      assert parts[j][0] == items[k] && parts[j][1] == items[k + 1];
    }
  }

  lemma SingletonIs<T>(parts: seq<seq<T>>, k: nat)
    requires Singletons(parts) && k < |parts|
    ensures k < |Flatten(parts)| && parts[k] == [Flatten(parts)[k]]
  {
    hide Start, Flatten;
    PartIsSlice(parts, k);
    SingletonsStart(parts, k);
  }

  /** map with a batcher processes every item exactly if no two neighbours may share a batch: the item limit is 1, or any
      two neighbours together exceed the byte limit. */
  lemma MapProcessesAllExactly<T>(limits: Limits<T>, batches: seq<Chunk<T>>, items: seq<T>)
    requires limits.maxItems >= 1 && Faithful(batches, items) && Greedy(limits, Lists(batches))
    ensures AllProcessed(batches, items) <==> NoPairs(limits, items)
  {
    hide Limits.Fits, Flatten;
    assert forall j :: 0 <= j < |batches| ==> Lists(batches)[j] != [];
    AllProcessedExactly(batches, items);
    GreedySingletonsExactly(limits, Lists(batches));
  }

  /** With a zero item limit the first body fails on its empty batch and the others process every item. */
  lemma ZeroLimitProcessesAll<T>(batches: seq<Chunk<T>>, items: seq<T>)
    requires OneByOneAll(items, batches)
    ensures AllProcessed(batches, items) && batches[0].items == []
  {
    forall k: nat | k < |items|
      ensures Processed(batches, k)
    {
      assert batches[k + 1] == Chunk(k + 1 - 1, [items[k + 1 - 1]]);
    }
  }
}
