/** The two programs end to end: the producer's batch handled by the consumer
    one message at a time, in sending order, then read back and checked. This is
    the sequential case only; the worker pool can handle messages in any order,
    which is what the order check is there to expose. */
module Pipeline {
  import opened Records
  import ConsumerHandler
  import Store
  import Producer
  import OrderVerifier

  /** The consumer meeting the batch in sending order, every insert accepted,
      the `k`-th message handled at the `k`-th consumer clock reading. */
  function InOrder(batch: seq<Producer.KafkaMessage>, clock: seq<int>): seq<ConsumerHandler.Delivery>
    requires |batch| <= |clock|
  {
    seq(|batch|, k requires 0 <= k < |batch| => ConsumerHandler.Delivery(batch[k].value, clock[k], true))
  }

  /** Handled in order, the batch leaves exactly one record per produced message
      in the store, with the faked payload, `Number` equal to its position, the
      producer's clock reading as publish time and the consumer's as consumption
      time, and the completion signal is sent once. */
  lemma InOrderRunPersistsBatch(fakes: seq<ProducerMessage>, pclock: seq<int>, cclock: seq<int>, n: nat)
    requires n <= |fakes| && n <= |pclock| && n <= |cclock|
    ensures var r := ConsumerHandler.Run(n, InOrder(Producer.Batch(fakes, pclock, n), cclock));
      && r.Ok?
      && |r.value.store| == n
      && r.value.signals == (if n >= 1 then 1 else 0)
      && forall k :: 0 <= k < n ==>
           r.value.store[k] == ConsumerMessage(fakes[k].id, fakes[k].email, fakes[k].firstName,
                                               fakes[k].lastName, k, pclock[k], cclock[k])
  {
    var batch := Producer.Batch(fakes, pclock, n);
    var ds := InOrder(batch, cclock);
    forall k | 0 <= k < n
      ensures ConsumerHandler.Succeeds(ds[k])
      ensures ConsumerHandler.Persisted(ds[k]) ==
        ConsumerMessage(fakes[k].id, fakes[k].email, fakes[k].firstName, fakes[k].lastName, k, pclock[k], cclock[k])
    {
      Producer.BatchContents(fakes, pclock, n, k);
    }
    ConsumerHandler.RunState(n, ds);
  }

  /** The store the in-order run leaves is ordered the way the two clocks are:
      strictly by consumption time, and never decreasing in publish time. */
  lemma InOrderStoreOrdered(fakes: seq<ProducerMessage>, pclock: seq<int>, cclock: seq<int>, n: nat,
                            s: ConsumerHandler.HandlerState)
    requires n <= |fakes| && n <= |pclock| && n <= |cclock|
    requires forall i :: 0 <= i && i + 1 < |pclock| ==> pclock[i] <= pclock[i + 1]
    requires forall i, j :: 0 <= i < j < |cclock| ==> cclock[i] < cclock[j]
    requires ConsumerHandler.Run(n, InOrder(Producer.Batch(fakes, pclock, n), cclock)) == Ok(s)
    ensures |s.store| == n
    ensures Store.StrictlyByConsumedAt(s.store)
    ensures OrderVerifier.NonDecreasing(s.store)
  {
    var batch := Producer.Batch(fakes, pclock, n);
    InOrderRunPersistsBatch(fakes, pclock, cclock, n);
    Producer.BatchPublishedNonDecreasing(fakes, pclock, n);
    forall i, j | 0 <= i <= j < n
      ensures s.store[i].publishedAt <= s.store[j].publishedAt
    {
      Producer.BatchContents(fakes, pclock, n, i);
      Producer.BatchContents(fakes, pclock, n, j);
      assert Producer.PublishedOf(batch[i]) == pclock[i] && Producer.PublishedOf(batch[j]) == pclock[j];
    }
  }

  /** With a producer clock that never goes back and a consumer clock that
      always moves forward, the in-order run passes the check: the query's only
      answer is the store in handling order, and the order check says "success". */
  lemma InOrderRunPassesCheck(fakes: seq<ProducerMessage>, pclock: seq<int>, cclock: seq<int>, n: nat,
                              s: ConsumerHandler.HandlerState, res: seq<ConsumerMessage>)
    requires n <= |fakes| && n <= |pclock| && n <= |cclock|
    requires forall i :: 0 <= i && i + 1 < |pclock| ==> pclock[i] <= pclock[i + 1]
    requires forall i, j :: 0 <= i < j < |cclock| ==> cclock[i] < cclock[j]
    requires ConsumerHandler.Run(n, InOrder(Producer.Batch(fakes, pclock, n), cclock)) == Ok(s)
    requires Store.IsFindResult(s.store, n, res)
    ensures res == s.store
    ensures OrderVerifier.Verification(Some(OrderVerifier.StoredDocs(res)), n) == OrderVerifier.Success
  {
    InOrderStoreOrdered(fakes, pclock, cclock, n, s);
    Store.FindResultUnique(s.store, n, res);
    assert s.store[..n] == s.store;
    OrderVerifier.FullBatchVerdict(res, n);
  }
}
