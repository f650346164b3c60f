/** config.rs, ItemBatcher::batch. */
module ItemBatching {

  /** A batch with the index of its first item. */
  datatype Chunk<T> = Chunk(start: nat, items: seq<T>)

  function Flatten<T>(parts: seq<seq<T>>): seq<T> {
    if parts == [] then [] else Flatten(parts[..|parts| - 1]) + parts[|parts| - 1]
  }

  function Lists<T>(batches: seq<Chunk<T>>): (r: seq<seq<T>>)
    ensures |r| == |batches| && forall j :: 0 <= j < |r| ==> r[j] == batches[j].items
  {
    seq(|batches|, j requires 0 <= j < |batches| => batches[j].items)
  }

  function Bytes<T>(items: seq<T>, size: T -> nat): nat {
    if items == [] then 0 else Bytes(items[..|items| - 1], size) + size(items[|items| - 1])
  }

  /** The limits as documented, with the exception for a single oversized item. size is the length of the JSON text of
      an item, 0 if it has none. */
  datatype Limits<!T> = Limits(maxItems: nat, maxBytes: nat, size: T -> nat) {
    predicate Fits(items: seq<T>) {
      |items| <= maxItems && (Bytes(items, size) <= maxBytes || |items| == 1)
    }
  }

  /** Nothing lost, nothing moved: the batches are the input cut up, each labelled with where it starts. */
  ghost predicate Faithful<T>(batches: seq<Chunk<T>>, items: seq<T>) {
    && Flatten(Lists(batches)) == items
    && forall j :: 0 <= j < |batches| ==> batches[j].start == |Flatten(Lists(batches)[..j])|
  }

  /** Non-empty batches within the limits, none of which, but the last, could also hold the next item. */
  ghost predicate Greedy<T>(limits: Limits<T>, parts: seq<seq<T>>) {
    && (forall j :: 0 <= j < |parts| ==> parts[j] != [] && limits.Fits(parts[j]))
    && (forall i, j :: 0 <= i && j == i + 1 < |parts| ==> !limits.Fits(parts[i] + [parts[j][0]]))
  }

  lemma FlattenSnoc<T>(parts: seq<seq<T>>, part: seq<T>)
    ensures Flatten(parts + [part]) == Flatten(parts) + part
  {
    assert (parts + [part])[..|parts|] == parts;
  }

  lemma BytesSnoc<T>(items: seq<T>, item: T, size: T -> nat)
    ensures Bytes(items + [item], size) == Bytes(items, size) + size(item)
  {
    assert (items + [item])[..|items|] == items;
  }

  /** Closing the current batch keeps the batches faithful. */
  lemma FaithfulSnoc<T>(batches: seq<Chunk<T>>, batch: Chunk<T>, items: seq<T>)
    requires Faithful(batches, items) && batch.start == |items|
    ensures Faithful(batches + [batch], items + batch.items)
  {
    var longer := batches + [batch];
    assert Lists(longer) == Lists(batches) + [batch.items];
    FlattenSnoc(Lists(batches), batch.items);
    forall j | 0 <= j < |longer|
      ensures longer[j].start == |Flatten(Lists(longer)[..j])|
    {
      assert Lists(longer)[..j] == Lists(batches)[..j];
      if j == |batches| {
        assert Lists(batches)[..j] == Lists(batches);
      }
    }
  }

  // ---------- the loop ----------

  /** What max_items_per_batch = 0 gives for the first i items: an empty batch, then one an item, the last still open. */
  ghost predicate OneByOne<T>(items: seq<T>, i: nat, batches: seq<Chunk<T>>)
    requires i <= |items|
  {
    && |batches| == i
    && (i > 0 ==> batches[0] == Chunk(0, []))
    && forall j :: 1 <= j < i ==> batches[j] == Chunk(j - 1, [items[j - 1]])
  }

  /** The batches closed before item i, and the one that is open. */
  ghost predicate InProgress<T>(limits: Limits<T>, items: seq<T>, i: nat, batches: seq<Chunk<T>>, start: nat, current: seq<T>)
  {
    && start <= i <= |items|
    && Faithful(batches, items[..start])
    && current == items[start..i]
    && (i == 0 <==> current == [])
    && (i == 0 ==> batches == [])
    && (limits.maxItems == 0 ==> OneByOne(items, i, batches) && |current| <= 1)
    && (limits.maxItems >= 1 ==>
          && Greedy(limits, Lists(batches))
          && (i > 0 ==> limits.Fits(current))
          && (batches != [] ==> !limits.Fits(batches[|batches| - 1].items + [current[0]])))
  }

  /** The item goes into the open batch. */
  lemma AddItem<T>(limits: Limits<T>, items: seq<T>, i: nat, batches: seq<Chunk<T>>, start: nat, current: seq<T>)
    requires InProgress(limits, items, i, batches, start, current) && i < |items| && |current| < limits.maxItems
    requires current == [] || Bytes(current, limits.size) + limits.size(items[i]) <= limits.maxBytes
    ensures InProgress(limits, items, i + 1, batches, start, current + [items[i]])
  {
    hide Faithful, Greedy, OneByOne, Limits.Fits;
    assert items[start..i + 1] == current + [items[i]];
    if limits.maxItems >= 1 {
      FitsWith(limits, current, items[i]);
      assert current != [] ==> (current + [items[i]])[0] == current[0];
    }
  }

  lemma FitsWith<T>(limits: Limits<T>, current: seq<T>, item: T)
    requires |current| < limits.maxItems
    requires current == [] || Bytes(current, limits.size) + limits.size(item) <= limits.maxBytes
    ensures limits.Fits(current + [item])
  {
    BytesSnoc(current, item, limits.size);
  }

  lemma GreedySnoc<T>(limits: Limits<T>, batches: seq<Chunk<T>>, batch: Chunk<T>)
    requires Greedy(limits, Lists(batches)) && batch.items != [] && limits.Fits(batch.items)
    requires batches != [] ==> !limits.Fits(batches[|batches| - 1].items + [batch.items[0]])
    ensures Greedy(limits, Lists(batches + [batch]))
  {
    hide Limits.Fits;
    assert Lists(batches + [batch]) == Lists(batches) + [batch.items];
  }

  lemma OneByOneSnoc<T>(items: seq<T>, i: nat, batches: seq<Chunk<T>>, batch: Chunk<T>)
    requires i <= |items| && OneByOne(items, i, batches)
    requires batch == if i == 0 then Chunk(0, []) else Chunk(i - 1, [items[i - 1]])
    ensures i < |items| ==> OneByOne(items, i + 1, batches + [batch])
    ensures i == |items| > 0 ==> OneByOneAll(items, batches + [batch])
  {
  }

  /** With a zero item limit the open batch is what the next closed one should be. */
  lemma OpenIsNext<T>(items: seq<T>, i: nat, batches: seq<Chunk<T>>, start: nat, current: seq<T>)
    requires start <= i <= |items| && current == items[start..i] && |current| <= 1 && (i == 0 <==> current == [])
    ensures Chunk(start, current) == if i == 0 then Chunk(0, []) else Chunk(i - 1, [items[i - 1]])
  {
  }

  lemma ClosedParts<T>(limits: Limits<T>, items: seq<T>, i: nat, batches: seq<Chunk<T>>, start: nat, current: seq<T>)
    requires InProgress(limits, items, i, batches, start, current) && (limits.maxItems >= 1 ==> current != [])
    ensures var all := batches + [Chunk(start, current)];
            && Faithful(all, items[..i])
            && (limits.maxItems >= 1 ==> Greedy(limits, Lists(all)))
            && (limits.maxItems == 0 && i < |items| ==> OneByOne(items, i + 1, all))
            && (limits.maxItems == 0 && i == |items| > 0 ==> OneByOneAll(items, all))
  {
    hide Limits.Fits, Faithful, Greedy, OneByOne, OneByOneAll;
    FaithfulSnoc(batches, Chunk(start, current), items[..start]);
    assert items[..start] + current == items[..i];
    if limits.maxItems >= 1 {
      GreedySnoc(limits, batches, Chunk(start, current));
    } else {
      OpenIsNext(items, i, batches, start, current);
      OneByOneSnoc(items, i, batches, Chunk(start, current));
    }
  }

  lemma DoesNotFit<T>(limits: Limits<T>, current: seq<T>, item: T)
    requires || |current| >= limits.maxItems
             || (Bytes(current, limits.size) + limits.size(item) > limits.maxBytes && current != [])
    ensures !limits.Fits(current + [item])
  {
    BytesSnoc(current, item, limits.size);
  }

  lemma FitsAlone<T>(limits: Limits<T>, item: T)
    ensures limits.maxItems >= 1 ==> limits.Fits([item])
  {
  }

  /** The open batch is closed and the item opens the next. */
  lemma CloseAndOpen<T>(limits: Limits<T>, items: seq<T>, i: nat, batches: seq<Chunk<T>>, start: nat, current: seq<T>)
    requires InProgress(limits, items, i, batches, start, current) && i < |items|
    requires || |current| >= limits.maxItems
             || (Bytes(current, limits.size) + limits.size(items[i]) > limits.maxBytes && current != [])
    ensures InProgress(limits, items, i + 1, batches + [Chunk(start, current)], i, [items[i]])
  {
    hide Faithful, Greedy, OneByOne, OneByOneAll, Limits.Fits;
    DoesNotFit(limits, current, items[i]);
    FitsAlone(limits, items[i]);
    ClosedParts(limits, items, i, batches, start, current);
    assert items[i..i + 1] == [items[i]];
  }

  lemma CloseLast<T>(limits: Limits<T>, items: seq<T>, batches: seq<Chunk<T>>, start: nat, current: seq<T>)
    requires InProgress(limits, items, |items|, batches, start, current) && items != []
    ensures current != []
    ensures var all := batches + [Chunk(start, current)];
            && Faithful(all, items)
            && (limits.maxItems >= 1 ==> Greedy(limits, Lists(all)))
            && (limits.maxItems == 0 ==> OneByOneAll(items, all))
  {
    hide Limits.Fits, Faithful, Greedy, OneByOne, OneByOneAll;
    ClosedParts(limits, items, |items|, batches, start, current);
    assert items[..|items|] == items;
  }

  lemma NothingYet<T>(limits: Limits<T>, items: seq<T>)
    ensures InProgress(limits, items, 0, [], 0, [])
  {
  }

  lemma NoBatches<T>(limits: Limits<T>, items: seq<T>)
    requires items == []
    ensures Faithful([], items) && Greedy(limits, Lists([]))
  {
  }

  lemma NoBytes<T>(items: seq<T>, size: T -> nat)
    requires items == []
    ensures Bytes(items, size) == 0
  {
  }

  lemma OneItem<T>(item: T, size: T -> nat)
    ensures [] + [item] == [item] && Bytes([item], size) == size(item)
  {
  }

  /** An empty batch and then one batch an item. */
  ghost predicate OneByOneAll<T>(items: seq<T>, batches: seq<Chunk<T>>) {
    && |batches| == |items| + 1
    && batches[0] == Chunk(0, [])
    && forall j :: 1 <= j <= |items| ==> batches[j] == Chunk(j - 1, [items[j - 1]])
  }

  class ItemBatcher<!T> {
    const limits: Limits<T>

    constructor (maxItems: nat, maxBytes: nat, size: T -> nat)
      ensures limits == Limits(maxItems, maxBytes, size)
    {
      limits := Limits(maxItems, maxBytes, size);
    }

    /** A zero item limit is not an error in the source: it gives an empty first batch. */
    method Batch(items: seq<T>) returns (batches: seq<Chunk<T>>)
      ensures Faithful(batches, items)
      ensures limits.maxItems >= 1 ==> Greedy(limits, Lists(batches))
      ensures limits.maxItems == 0 && items != [] ==> OneByOneAll(items, batches)
    {
      hide InProgress, Limits.Fits, Faithful, Greedy, OneByOneAll, Lists;
      batches := [];
      if items == [] {
        NoBatches(limits, items);
        return;
      }
      NothingYet(limits, items);
      var current: seq<T> := [];
      var currentBytes := 0;
      var start := 0;
      NoBytes(current, limits.size);
      hide Bytes;
      for i := 0 to |items|
        invariant InProgress(limits, items, i, batches, start, current)
        invariant currentBytes == Bytes(current, limits.size)
      {
        var itemBytes := limits.size(items[i]);
        var wouldExceedItems := |current| >= limits.maxItems;
        var wouldExceedBytes := currentBytes + itemBytes > limits.maxBytes && current != [];
        if wouldExceedItems || wouldExceedBytes {
          CloseAndOpen(limits, items, i, batches, start, current);
          OneItem(items[i], limits.size);
          batches := batches + [Chunk(start, current)];
          current := [];
          currentBytes := 0;
          start := i;
        } else {
          AddItem(limits, items, i, batches, start, current);
          BytesSnoc(current, items[i], limits.size);
        }
        current := current + [items[i]];
        currentBytes := currentBytes + itemBytes;
      }
      CloseLast(limits, items, batches, start, current);
      if current != [] {
        batches := batches + [Chunk(start, current)];
      }
    }
  }

  // ---------- greedy is optimal ----------

  /** Any order-preserving way to cut the items into parts within the limits; empty parts are allowed. */
  ghost predicate Admissible<T>(limits: Limits<T>, parts: seq<seq<T>>) {
    forall j :: 0 <= j < |parts| ==> parts[j] == [] || limits.Fits(parts[j])
  }

  /** Where part j starts. */
  function Start<T>(parts: seq<seq<T>>, j: nat): nat
    requires j <= |parts|
  {
    |Flatten(parts[..j])|
  }

  lemma {:induction false} PartIsSlice<T>(parts: seq<seq<T>>, j: nat)
    requires j < |parts|
    ensures Start(parts, j + 1) == Start(parts, j) + |parts[j]| <= |Flatten(parts)|
    ensures parts[j] == Flatten(parts)[Start(parts, j)..Start(parts, j + 1)]
  {
    assert parts[..j + 1] == parts[..j] + [parts[j]];
    FlattenSnoc(parts[..j], parts[j]);
    var n := |parts| - 1;
    if j == n {
      assert parts[..n + 1] == parts;
    } else {
      assert parts[..n][..j] == parts[..j] && parts[..n][..j + 1] == parts[..j + 1];
      PartIsSlice(parts[..n], j);
    }
  }

  lemma SliceOfFront<T>(items: seq<T>, i: nat, j: nat)
    requires i <= j <= |items|
    ensures j < |items| ==> items[i..j] == items[..|items| - 1][i..j]
    ensures i < j == |items| ==> items[i..j] == items[..j - 1][i..] + [items[j - 1]]
  {
  }

  lemma {:induction false} BytesOfSlice<T>(items: seq<T>, i: nat, j: nat, size: T -> nat)
    requires i <= j <= |items|
    ensures Bytes(items[i..j], size) <= Bytes(items, size)
    decreases |items|
  {
    SliceOfFront(items, i, j);
    if i == j {
      NoBytes(items[i..j], size);
    } else {
      hide Bytes;
      var n := |items| - 1;
      BytesOfFront(items, size);
      if j <= n {
        BytesOfSlice(items[..n], i, j, size);
      } else {
        BytesOfSlice(items[..n], i, n, size);
        assert items[..n][i..n] == items[..n][i..];
        BytesSnoc(items[..n][i..], items[n], size);
      }
    }
  }

  lemma BytesOfFront<T>(items: seq<T>, size: T -> nat)
    requires items != []
    ensures Bytes(items, size) == Bytes(items[..|items| - 1], size) + size(items[|items| - 1])
  {
  }

  /** A non-empty slice of a part within the limits is within the limits. */
  lemma SliceFits<T>(limits: Limits<T>, part: seq<T>, i: nat, j: nat)
    requires limits.Fits(part) && i < j <= |part|
    ensures limits.Fits(part[i..j])
  {
    BytesOfSlice(part, i, j, limits.size);
  }

  lemma LastEndsAll<T>(parts: seq<seq<T>>, j: nat)
    requires j < |parts| && Start(parts, j + 1) < |Flatten(parts)|
    ensures j + 1 < |parts|
  {
    assert parts[..|parts|] == parts;
  }

  lemma NextStartsAt<T>(parts: seq<seq<T>>, j: nat)
    requires j + 1 < |parts| && parts[j + 1] != []
    ensures Start(parts, j + 1) < |Flatten(parts)| && parts[j + 1][0] == Flatten(parts)[Start(parts, j + 1)]
  {
    PartIsSlice(parts, j + 1);
  }

  lemma SliceSnoc<T>(items: seq<T>, a: nat, b: nat)
    requires a <= b < |items|
    ensures items[a..b] + [items[b]] == items[a..b + 1]
  {
  }

  lemma NestedSlice<T>(items: seq<T>, d: nat, a: nat, b: nat, c: nat)
    requires d <= a <= b <= c <= |items|
    ensures items[d..c][a - d..b - d] == items[a..b]
  {
    var part := items[d..c];
    assert forall k :: a - d <= k < b - d ==> part[k] == items[k + d];
    assert part[a - d..b - d] == items[a..b];
  }

  /** A greedy part that ended inside an admissible one could have held the next item. */
  lemma CouldHoldNext<T>(limits: Limits<T>, greedy: seq<seq<T>>, other: seq<seq<T>>, j: nat)
    requires j + 1 < |greedy| && j < |other| && Flatten(greedy) == Flatten(other)
    requires greedy[j + 1] != [] && limits.Fits(other[j])
    requires Start(other, j) <= Start(greedy, j) && Start(greedy, j + 1) < Start(other, j + 1)
    ensures limits.Fits(greedy[j] + [greedy[j + 1][0]])
  {
    hide Start, Flatten, Limits.Fits;
    PartIsSlice(greedy, j);
    PartIsSlice(other, j);
    NextStartsAt(greedy, j);
    var items := Flatten(greedy);
    var a, b, c, d := Start(greedy, j), Start(greedy, j + 1), Start(other, j + 1), Start(other, j);
    SliceSnoc(items, a, b);
    NestedSlice(items, d, a, b + 1, c);
    SliceFits(limits, other[j], a - d, b + 1 - d);
  }

  /** A greedy part that starts no earlier than an admissible one does not end before it. */
  lemma EndsNoEarlier<T>(limits: Limits<T>, greedy: seq<seq<T>>, other: seq<seq<T>>, j: nat)
    requires Greedy(limits, greedy) && Admissible(limits, other) && Flatten(greedy) == Flatten(other)
    requires j < |greedy| && j < |other| && Start(greedy, j) >= Start(other, j)
    ensures Start(greedy, j + 1) >= Start(other, j + 1)
  {
    hide Start, Flatten, Limits.Fits;
    PartIsSlice(greedy, j);
    PartIsSlice(other, j);
    if Start(greedy, j + 1) < Start(other, j + 1) {
      LastEndsAll(greedy, j);
      CouldHoldNext(limits, greedy, other, j);
    }
  }

  /** After the same number of parts the greedy cut is never behind. */
  lemma {:induction false} StaysAhead<T>(limits: Limits<T>, greedy: seq<seq<T>>, other: seq<seq<T>>, j: nat)
    requires Greedy(limits, greedy) && Admissible(limits, other) && Flatten(greedy) == Flatten(other)
    requires j <= |greedy| && j <= |other|
    ensures Start(greedy, j) >= Start(other, j)
  {
    if j > 0 {
      StaysAhead(limits, greedy, other, j - 1);
      EndsNoEarlier(limits, greedy, other, j - 1);
    }
  }

  /** No admissible way to cut the items needs fewer parts. */
  lemma GreedyIsOptimal<T>(limits: Limits<T>, greedy: seq<seq<T>>, other: seq<seq<T>>)
    requires Greedy(limits, greedy) && Admissible(limits, other) && Flatten(greedy) == Flatten(other)
    ensures |greedy| <= |other|
  {
    if |other| < |greedy| {
      StaysAhead(limits, greedy, other, |other|);
      assert other[..|other|] == other;
      PartIsSlice(greedy, |other|);
    }
  }

  /** The contract of Batch leaves no choice: two greedy cuts of the same items are the same. */
  lemma GreedyIsUnique<T>(limits: Limits<T>, a: seq<seq<T>>, b: seq<seq<T>>)
    requires Greedy(limits, a) && Greedy(limits, b) && Flatten(a) == Flatten(b)
    ensures a == b
  {
    GreedyIsOptimal(limits, a, b);
    GreedyIsOptimal(limits, b, a);
    forall j | 0 <= j < |a|
      ensures a[j] == b[j]
    {
      StaysAhead(limits, a, b, j);
      StaysAhead(limits, b, a, j);
      StaysAhead(limits, a, b, j + 1);
      StaysAhead(limits, b, a, j + 1);
      PartIsSlice(a, j);
      PartIsSlice(b, j);
    }
  }

  // ---------- the documented byte limit ----------

  lemma {:induction false} FlattenMembers<T>(parts: seq<seq<T>>, item: T)
    ensures item in Flatten(parts) <==> exists j :: 0 <= j < |parts| && item in parts[j]
  {
    if parts != [] {
      var n := |parts| - 1;
      FlattenMembers(parts[..n], item);
      assert forall j :: 0 <= j < n ==> parts[..n][j] == parts[j];
    }
  }

  lemma BytesOfMember<T>(items: seq<T>, item: T, size: T -> nat)
    requires item in items
    ensures size(item) <= Bytes(items, size)
  {
    var k :| 0 <= k < |items| && items[k] == item;
    BytesOfSlice(items, k, k + 1, size);
    BytesSnoc([], item, size);
    assert [] + [item] == items[k..k + 1];
  }

  lemma BytesOfOne<T>(part: seq<T>, size: T -> nat)
    requires |part| == 1
    ensures Bytes(part, size) == size(part[0])
  {
    OneItem(part[0], size);
    assert part == [part[0]];
  }

  /** Part j is within the byte limit exactly if none of its items is larger. */
  lemma PartWithinBytes<T>(limits: Limits<T>, part: seq<T>)
    requires part != [] && limits.Fits(part)
    ensures Bytes(part, limits.size) <= limits.maxBytes <==>
            forall item :: item in part ==> limits.size(item) <= limits.maxBytes
  {
    hide Bytes;
    forall item | item in part
      ensures limits.size(item) <= Bytes(part, limits.size)
    {
      BytesOfMember(part, item, limits.size);
    }
    if |part| == 1 {
      BytesOfOne(part, limits.size);
      assert part[0] in part;
    }
  }

  /** The documentation promises at most max_bytes_per_batch in every batch. That holds exactly when no single item is
      larger; the code lets an oversized item through alone. */
  lemma ByteLimitExactly<T>(limits: Limits<T>, parts: seq<seq<T>>)
    requires Greedy(limits, parts)
    ensures (forall j :: 0 <= j < |parts| ==> Bytes(parts[j], limits.size) <= limits.maxBytes) <==>
            (forall item :: item in Flatten(parts) ==> limits.size(item) <= limits.maxBytes)
  {
    hide Bytes, Flatten, Limits.Fits;
    if forall j :: 0 <= j < |parts| ==> Bytes(parts[j], limits.size) <= limits.maxBytes {
      forall item | item in Flatten(parts)
        ensures limits.size(item) <= limits.maxBytes
      {
        FlattenMembers(parts, item);
        var j :| 0 <= j < |parts| && item in parts[j];
        PartWithinBytes(limits, parts[j]);
      }
    }
    if forall item :: item in Flatten(parts) ==> limits.size(item) <= limits.maxBytes {
      forall j | 0 <= j < |parts|
        ensures Bytes(parts[j], limits.size) <= limits.maxBytes
      {
        forall item | item in parts[j]
          ensures limits.size(item) <= limits.maxBytes
        {
          FlattenMembers(parts, item);
        }
        PartWithinBytes(limits, parts[j]);
      }
    }
  }
}
