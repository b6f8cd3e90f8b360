/** The producer (producer/main.go): a loop that generates the batch and pushes
    each message to the produce channel, and a goroutine that counts delivery
    reports and signals the main line once the whole batch is acknowledged. The
    faker's field values and the clock readings are inputs. */
module Producer {
  import opened Records
  import Completion

  const Topic: string := "poc-test-part-1"
  const Partition: int := 1

  /** What goes into the produce channel: the destination, the JSON body, and
      the message key (the bytes of the message's `ID`). */
  datatype KafkaMessage = KafkaMessage(topic: string, partition: int, value: WireBody, key: string)

  /** The producer's event stream: delivery reports (one `*kafka.Message` per
      produced message, whether or not its delivery failed) and every other kind
      of event, which the counting loop ignores. */
  datatype Event = DeliveryReport(report: KafkaMessage, failed: bool) | OtherEvent

  /** Iteration `i` of the generation loop: the faked message gets `Number = i`
      and `Published` = the clock reading, is encoded, and is keyed by its `ID`
      onto partition 1 of the topic. */
  function Produced(fake: ProducerMessage, i: int, now: int): (msg: KafkaMessage)
    ensures msg.topic == Topic && msg.partition == Partition && msg.key == fake.id
    ensures Unmarshal(msg.value) ==
      Ok(ConsumerMessage(fake.id, fake.email, fake.firstName, fake.lastName, i, now, 0))
  {
    var m := fake.(number := i, published := now);
    KafkaMessage(Topic, Partition, Marshal(m), m.id)
  }

  /** The batch the generation loop sends, in sending order: one message per
      iteration, from the `i`-th faked message and the `i`-th clock reading. */
  function Batch(fakes: seq<ProducerMessage>, clock: seq<int>, n: nat): (b: seq<KafkaMessage>)
    requires n <= |fakes| && n <= |clock|
    ensures |b| == n
    ensures forall k :: 0 <= k < n ==> b[k].value.Json? && b[k].value.record.number == k
  {
    seq(n, i requires 0 <= i < n => Produced(fakes[i], i, clock[i]))
  }

  /** The generation loop `for i := 0; i < seedSize; i++`. */
  method Generate(seedSize: int, fakes: seq<ProducerMessage>, clock: seq<int>) returns (sent: seq<KafkaMessage>)
    requires seedSize <= |fakes| && seedSize <= |clock|
    ensures |sent| == if seedSize < 0 then 0 else seedSize
    ensures sent == Batch(fakes, clock, |sent|)
    ensures forall k :: 0 <= k < |sent| ==>
      sent[k].topic == Topic && sent[k].partition == 1 && sent[k].key == fakes[k].id
    ensures forall k :: 0 <= k < |sent| ==>
      sent[k].value == Marshal(fakes[k].(number := k, published := clock[k]))
  {
    sent := [];
    var n := if seedSize < 0 then 0 else seedSize;
    var i := 0;
    while i < seedSize
      invariant 0 <= i <= n
      invariant i == |sent|
      invariant sent == Batch(fakes, clock, i)
    {
      var m := fakes[i];
      m := m.(number := i);
      m := m.(published := clock[i]);
      var body := Marshal(m);
      sent := sent + [KafkaMessage(Topic, Partition, body, m.id)];
      i := i + 1;
    }
  }

  /** Every message of the batch goes to partition 1 of the topic, keyed by its
      faked `ID`, and the consumer decodes from it the faked payload with
      `Number` equal to its position and `PublishedAt` equal to its clock reading. */
  lemma BatchContents(fakes: seq<ProducerMessage>, clock: seq<int>, n: nat, k: nat)
    requires n <= |fakes| && n <= |clock| && k < n
    ensures |Batch(fakes, clock, n)| == n
    ensures var msg := Batch(fakes, clock, n)[k];
      && msg.topic == Topic && msg.partition == 1 && msg.key == fakes[k].id
      && Unmarshal(msg.value) == Ok(ConsumerMessage(fakes[k].id, fakes[k].email,
           fakes[k].firstName, fakes[k].lastName, k, clock[k], 0))
  {
  }

  /** The publish time of a batch message, as the consumer reads it. */
  function PublishedOf(msg: KafkaMessage): int
    requires msg.value.Json?
  {
    msg.value.record.publishedAt
  }

  /** With a clock whose readings never go back, publish times never decrease in
      `Number` order across the whole batch. */
  lemma {:induction false} BatchPublishedNonDecreasing(fakes: seq<ProducerMessage>, clock: seq<int>, n: nat)
    requires n <= |fakes| && n <= |clock|
    requires forall i :: 0 <= i && i + 1 < |clock| ==> clock[i] <= clock[i + 1]
    ensures var b := Batch(fakes, clock, n);
      forall i, j :: 0 <= i <= j < n ==> PublishedOf(b[i]) <= PublishedOf(b[j])
    decreases n
  {
    if n > 0 {
      BatchPublishedNonDecreasing(fakes, clock, n - 1);
      var b, b' := Batch(fakes, clock, n), Batch(fakes, clock, n - 1);
      forall i, j | 0 <= i <= j < n
        ensures PublishedOf(b[i]) <= PublishedOf(b[j])
      {
        if j < n - 1 {
          assert b[i] == b'[i] && b[j] == b'[j];
        } else if i < n - 1 {
          assert b[i] == b'[i] && b[n - 2] == b'[n - 2];
          assert PublishedOf(b[n - 2]) == clock[n - 2] <= clock[n - 1] == PublishedOf(b[n - 1]);
        }
      }
    }
  }

  /** How many delivery reports `events` holds. */
  function Reports(events: seq<Event>): (n: nat)
    ensures n <= |events|
    decreases |events|
  {
    if events == [] then 0
    else Reports(events[..|events| - 1]) + (if events[|events| - 1].DeliveryReport? then 1 else 0)
  }

  lemma {:induction false} ReportsAppend(a: seq<Event>, b: seq<Event>)
    ensures Reports(a + b) == Reports(a) + Reports(b)
    decreases |b|
  {
    if b == [] {
      assert a + b == a;
    } else {
      var b' := b[..|b| - 1];
      assert (a + b)[..|a + b| - 1] == a + b';
      assert (a + b)[|a + b| - 1] == b[|b| - 1];
      ReportsAppend(a, b');
    }
  }

  /** An event of any other kind, anywhere in the stream, leaves the count as it is. */
  lemma OtherEventsIgnored(a: seq<Event>, b: seq<Event>)
    ensures Reports(a + [OtherEvent] + b) == Reports(a + b)
  {
    ReportsAppend(a + [OtherEvent], b);
    ReportsAppend(a, b);
    ReportsAppend(a, [OtherEvent]);
    assert [OtherEvent][..0] == [];
  }

  /** A report of a failed delivery, anywhere in the stream, is counted like a
      report of a successful one. */
  lemma FailedDeliveriesCount(a: seq<Event>, m: KafkaMessage, b: seq<Event>)
    ensures Reports(a + [DeliveryReport(m, true)] + b) == Reports(a) + 1 + Reports(b)
    ensures Reports(a + [DeliveryReport(m, true)] + b) == Reports(a + [DeliveryReport(m, false)] + b)
  {
    forall failed: bool
      ensures Reports(a + [DeliveryReport(m, failed)] + b) == Reports(a) + 1 + Reports(b)
    {
      ReportsAppend(a + [DeliveryReport(m, failed)], b);
      ReportsAppend(a, [DeliveryReport(m, failed)]);
      assert [DeliveryReport(m, failed)][..0] == [];
    }
  }

  /** The delivery-report goroutine's `for range p.Events()` loop: count the
      `*kafka.Message` events, and signal when the count equals `seedSize`. */
  method CountDeliveries(seedSize: int, events: seq<Event>) returns (counter: int, signals: nat)
    ensures counter == Reports(events)
    ensures signals == Completion.SignalsAfter(seedSize, Reports(events))
    ensures signals <= 1
    ensures signals == 1 <==> 1 <= seedSize <= Reports(events)
  {
    counter, signals := 0, 0;
    for i := 0 to |events|
      invariant counter == Reports(events[..i])
      invariant signals == Completion.SignalsAfter(seedSize, counter)
    {
      assert events[..i + 1][..i] == events[..i];
      match events[i]
      case DeliveryReport(_, _) =>
        counter := counter + 1;
        if counter == seedSize {
          signals := signals + 1;
        }
      case OtherEvent =>
    }
    assert events[..|events|] == events;
  }

  /** The signal goes out at the delivery report that brings the count to
      `seedSize` and not before, and no later event sends another. */
  lemma SignalAtBatchSizeReport(seedSize: int, events: seq<Event>, j: nat)
    requires j < |events| && events[j].DeliveryReport?
    requires Reports(events[..j]) + 1 == seedSize
    ensures Completion.SignalsAfter(seedSize, Reports(events[..j])) == 0
    ensures forall m :: j < m <= |events| ==> Completion.SignalsAfter(seedSize, Reports(events[..m])) == 1
  {
    forall m | j < m <= |events|
      ensures Reports(events[..m]) >= seedSize
    {
      assert events[..m] == events[..j] + events[j..m];
      ReportsAppend(events[..j], events[j..m]);
      assert events[j..m] == [events[j]] + events[j + 1..m];
      ReportsAppend([events[j]], events[j + 1..m]);
      assert [events[j]][..0] == [];
    }
  }
}
