/** The consumer's verification phase (consumer/main.go:94-117): read the first
    `seedSize` records back from the store in consumption order, then walk the
    adjacent pairs and fail with "wrong order" at the first strict decrease of
    the publish time. The walk indexes up to `seedSize - 1` whatever was read, so
    a short read ends in Go's index-out-of-range panic unless an inversion was
    met before the end. */
module OrderVerifier {
  import opened Records
  import Store
  import ConsumerHandler

  /** One document of the read-back cursor: a record, or one that fails to decode. */
  datatype Doc = Stored(record: ConsumerMessage) | Undecodable

  /** How the consumer process ends after the completion signal: the two log
      lines "success" and "wrong order", a runtime panic on an index past the end
      of `messages`, or a fatal read-back error. */
  datatype Outcome =
    | Success
    | WrongOrder
    | IndexOutOfRange(index: int, length: int)
    | Fatal(fault: Fault)

  /** The records a cursor yields, in cursor order; the first document that does
      not decode is fatal. */
  function Decoded(docs: seq<Doc>): (r: Result<seq<ConsumerMessage>>)
    ensures r.Ok? <==> forall k :: 0 <= k < |docs| ==> docs[k].Stored?
    ensures r.Err? ==> r.fault == ReadFailed
    ensures r.Ok? ==> |r.value| == |docs| && forall k :: 0 <= k < |docs| ==> r.value[k] == docs[k].record
    decreases |docs|
  {
    if docs == [] then Ok([])
    else
      var init := docs[..|docs| - 1];
      assert forall k :: 0 <= k < |init| ==> init[k] == docs[k];
      match Decoded(init)
      case Err(f) => Err(f)
      case Ok(ms) =>
        match docs[|docs| - 1]
        case Undecodable => Err(ReadFailed)
        case Stored(m) => Ok(ms + [m])
  }

  /** The `for cur.Next` loop: decode each document and append it to `messages`. */
  method ReadBack(docs: seq<Doc>) returns (r: Result<seq<ConsumerMessage>>)
    ensures r == Decoded(docs)
  {
    var messages: seq<ConsumerMessage> := [];
    var i := 0;
    while i < |docs|
      invariant 0 <= i <= |docs|
      invariant Decoded(docs[..i]) == Ok(messages)
    {
      assert docs[..i + 1][..i] == docs[..i];
      match docs[i]
      case Undecodable =>
        assert !docs[i].Stored?;
        return Err(ReadFailed);
      case Stored(m) =>
        messages := messages + [m];
      i := i + 1;
    }
    assert docs[..i] == docs;
    r := Ok(messages);
  }

  /** The pair at `k` is out of publish order: the comparison is strict, so equal
      publish times are accepted. */
  predicate Inverted(ms: seq<ConsumerMessage>, k: int)
    requires 0 <= k && k + 1 < |ms|
  {
    ms[k].publishedAt > ms[k + 1].publishedAt
  }

  /** Some pair the loop reaches from index `i` on, before both its bound
      `seedSize - 1` and the end of `ms`, is inverted. */
  predicate InversionFrom(ms: seq<ConsumerMessage>, seedSize: int, i: int)
  {
    exists k :: i <= k && 0 <= k && k + 1 < seedSize && k + 1 < |ms| && Inverted(ms, k)
  }

  /** The order-check loop from index `i` on. */
  function Scan(ms: seq<ConsumerMessage>, seedSize: int, i: nat): (o: Outcome)
    requires i <= |ms|
    ensures o.WrongOrder? <==> InversionFrom(ms, seedSize, i)
    ensures o.Success? <==> !InversionFrom(ms, seedSize, i) && (seedSize <= i + 1 || seedSize <= |ms|)
    ensures o.IndexOutOfRange? ==> o.index == |ms| && o.length == |ms| && |ms| < seedSize
    ensures !o.Fatal?
    decreases seedSize - i
  {
    if i + 1 >= seedSize then Success
    else if i + 1 >= |ms| then IndexOutOfRange(if i < |ms| then i + 1 else i, |ms|)
    else if Inverted(ms, i) then WrongOrder
    else Scan(ms, seedSize, i + 1)
  }

  /** The verdict of the order check on the records read back: "wrong order"
      exactly when an inverted pair lies within the first `seedSize` records and
      the records actually read; "success" exactly when there is none and the loop
      never runs past the end; a panic at index `|ms|` otherwise. */
  function OrderVerdict(ms: seq<ConsumerMessage>, seedSize: int): (o: Outcome)
    ensures o.WrongOrder? <==>
      exists k :: 0 <= k && k + 1 < seedSize && k + 1 < |ms| && Inverted(ms, k)
    ensures o.Success? <==>
      (forall k :: 0 <= k && k + 1 < seedSize && k + 1 < |ms| ==> !Inverted(ms, k))
      && (seedSize <= 1 || seedSize <= |ms|)
    ensures o.IndexOutOfRange? ==> o == IndexOutOfRange(|ms|, |ms|) && |ms| < seedSize
    ensures !o.Fatal?
  {
    Scan(ms, seedSize, 0)
  }

  /** The `for i := 0; i < seedSize-1; i++` loop. */
  method CheckOrder(ms: seq<ConsumerMessage>, seedSize: int) returns (o: Outcome)
    ensures o == OrderVerdict(ms, seedSize)
  {
    var i := 0;
    while i < seedSize - 1
      invariant 0 <= i <= |ms|
      invariant Scan(ms, seedSize, i) == Scan(ms, seedSize, 0)
      decreases seedSize - i
    {
      if i >= |ms| {
        return IndexOutOfRange(i, |ms|);
      }
      if i + 1 >= |ms| {
        return IndexOutOfRange(i + 1, |ms|);
      }
      if ms[i].publishedAt > ms[i + 1].publishedAt {
        return WrongOrder;
      }
      i := i + 1;
    }
    o := Success;
  }

  /** The whole verification phase: the query fails (`None`), or yields a cursor
      whose documents are read back and checked. */
  function Verification(found: Option<seq<Doc>>, seedSize: int): (o: Outcome)
    ensures o == Fatal(FindFailed) <==> found.None?
    ensures o == Fatal(ReadFailed) <==>
      found.Some? && exists k :: 0 <= k < |found.value| && found.value[k].Undecodable?
    ensures o.Fatal? ==> o == Fatal(FindFailed) || o == Fatal(ReadFailed)
    ensures found.Some? && !o.Fatal? ==> o == OrderVerdict(Decoded(found.value).value, seedSize)
  {
    match found
    case None => Fatal(FindFailed)
    case Some(docs) =>
      match Decoded(docs)
      case Err(f) => Fatal(f)
      case Ok(ms) => OrderVerdict(ms, seedSize)
  }

  method VerifyStore(found: Option<seq<Doc>>, seedSize: int) returns (o: Outcome)
    ensures o == Verification(found, seedSize)
  {
    if found.None? {
      return Fatal(FindFailed);
    }
    var read := ReadBack(found.value);
    if read.Err? {
      return Fatal(read.fault);
    }
    o := CheckOrder(read.value, seedSize);
  }

  ghost predicate NonDecreasing(ms: seq<ConsumerMessage>)
  {
    forall i, j :: 0 <= i <= j < |ms| ==> ms[i].publishedAt <= ms[j].publishedAt
  }

  lemma {:induction false} AdjacentOrderIsOrder(ms: seq<ConsumerMessage>)
    requires forall k :: 0 <= k && k + 1 < |ms| ==> !Inverted(ms, k)
    ensures NonDecreasing(ms)
    decreases |ms|
  {
    if |ms| > 1 {
      var init := ms[..|ms| - 1];
      forall k | 0 <= k && k + 1 < |init|
        ensures !Inverted(init, k)
      {
        assert init[k] == ms[k] && init[k + 1] == ms[k + 1];
        assert !Inverted(ms, k);
      }
      AdjacentOrderIsOrder(init);
      forall i | 0 <= i < |ms| - 1
        ensures ms[i].publishedAt <= ms[|ms| - 1].publishedAt
      {
        assert init[i] == ms[i] && init[|ms| - 2] == ms[|ms| - 2];
        assert !Inverted(ms, |ms| - 2);
      }
    }
  }

  /** When all `seedSize` records were read, the check succeeds exactly when
      they are non-decreasing in publish time. */
  lemma SuccessIffNonDecreasing(ms: seq<ConsumerMessage>, seedSize: nat)
    requires seedSize <= |ms|
    ensures OrderVerdict(ms, seedSize) == Success <==> NonDecreasing(ms[..seedSize])
    ensures OrderVerdict(ms, seedSize) != Success ==> OrderVerdict(ms, seedSize) == WrongOrder
  {
    var prefix := ms[..seedSize];
    if OrderVerdict(ms, seedSize) == Success {
      forall k | 0 <= k && k + 1 < |prefix|
        ensures !Inverted(prefix, k)
      {
        assert prefix[k] == ms[k] && prefix[k + 1] == ms[k + 1];
        assert !Inverted(ms, k);
      }
      AdjacentOrderIsOrder(prefix);
    }
    if NonDecreasing(prefix) {
      forall k | 0 <= k && k + 1 < seedSize && k + 1 < |ms|
        ensures !Inverted(ms, k)
      {
        assert prefix[k] == ms[k] && prefix[k + 1] == ms[k + 1];
      }
    }
  }

  function Swap(ms: seq<ConsumerMessage>, k: nat): (r: seq<ConsumerMessage>)
    requires k + 1 < |ms|
  {
    ms[k := ms[k + 1]][k + 1 := ms[k]]
  }

  /** A full batch in strictly increasing publish order with one adjacent pair
      swapped is reported as "wrong order", and the swapped pair is the only
      inverted one. */
  lemma SwappedPairDetected(ms: seq<ConsumerMessage>, seedSize: nat, k: nat)
    requires |ms| == seedSize && k + 1 < seedSize
    requires forall i :: 0 <= i && i + 1 < |ms| ==> ms[i].publishedAt < ms[i + 1].publishedAt
    ensures OrderVerdict(Swap(ms, k), seedSize) == WrongOrder
    ensures forall j :: 0 <= j && j + 1 < seedSize && Inverted(Swap(ms, k), j) ==> j == k
  {
    var sw := Swap(ms, k);
    assert Inverted(sw, k);
    forall j | 0 <= j && j + 1 < seedSize && j != k
      ensures !Inverted(sw, j)
    {
      if j == k - 1 {
        assert ms[k - 1].publishedAt < ms[k].publishedAt;
      } else if j == k + 1 {
        assert ms[k + 1].publishedAt < ms[k + 2].publishedAt;
      } else if j != k {
        assert sw[j] == ms[j] && sw[j + 1] == ms[j + 1];
      }
    }
  }

  /** The cursor over a query answer: one document per record, in answer order. */
  function StoredDocs(res: seq<ConsumerMessage>): (docs: seq<Doc>)
  {
    seq(|res|, k requires 0 <= k < |res| => Stored(res[k]))
  }

  /** Read-back keeps the cursor's order: the messages are the answer itself. */
  lemma ReadBackKeepsOrder(res: seq<ConsumerMessage>)
    ensures Decoded(StoredDocs(res)) == Ok(res)
  {
    var r := Decoded(StoredDocs(res));
    assert r.Ok?;
    assert r.value == res;
  }

  /** Read back from any answer of the query, `messages` is sorted by
      consumption time and holds no more than the limit and the store allow. */
  lemma ReadBackSorted(store: seq<ConsumerMessage>, limit: nat, res: seq<ConsumerMessage>)
    requires Store.IsFindResult(store, limit, res)
    ensures Decoded(StoredDocs(res)).Ok?
    ensures Store.SortedByConsumedAt(Decoded(StoredDocs(res)).value)
    ensures |Decoded(StoredDocs(res)).value| == Store.Min(limit, |store|)
  {
    ReadBackKeepsOrder(res);
  }

  /** Checking a full batch read back whole: "success" when it is
      non-decreasing in publish time, "wrong order" otherwise, never a panic. */
  lemma FullBatchVerdict(res: seq<ConsumerMessage>, seedSize: nat)
    requires |res| == seedSize
    ensures Verification(Some(StoredDocs(res)), seedSize) == if NonDecreasing(res) then Success else WrongOrder
  {
    ReadBackKeepsOrder(res);
    SuccessIffNonDecreasing(res, seedSize);
    assert res[..seedSize] == res;
  }

  /** Once the handler has signalled completion, the query limited to
      `seedSize` returns exactly `seedSize` records, so the order check never runs
      past the end: it says "success" when they are non-decreasing in publish time
      and "wrong order" otherwise. */
  lemma CompletedRunIsCheckable(seedSize: nat, ds: seq<ConsumerHandler.Delivery>, res: seq<ConsumerMessage>)
    requires ConsumerHandler.Run(seedSize, ds).Ok?
    requires ConsumerHandler.Run(seedSize, ds).value.signals == 1
    requires Store.IsFindResult(ConsumerHandler.Run(seedSize, ds).value.store, seedSize, res)
    ensures |res| == seedSize
    ensures Verification(Some(StoredDocs(res)), seedSize) == if NonDecreasing(res) then Success else WrongOrder
  {
    assert |ConsumerHandler.Run(seedSize, ds).value.store| >= seedSize by {
      ConsumerHandler.SignalAtMostOnce(seedSize, ds);
      ConsumerHandler.RunState(seedSize, ds);
    }
    FullBatchVerdict(res, seedSize);
  }
}
