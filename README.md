# Ordered Kafka-to-MongoDB pipeline check, modelled in Dafny

The system is a one-shot harness that checks ordering. A producer sends a
batch of `seedSize` (1000) JSON messages to partition 1 of the topic
`poc-test-part-1`. Message `i` carries `Number = i` and the clock reading taken
when it was built, as `published_at`. A consumer handles the messages with a
pool of workers. Each handler run decodes a message, stamps it with the
consumption time, inserts it into a MongoDB collection and bumps a shared
counter. When the counter reaches `seedSize`, the handler sends a completion
signal. The main line then reads back the first `seedSize` documents sorted by
`consumed_at`. It fails with "wrong order" at the first adjacent pair whose
publish time decreases, and otherwise logs "success".

This project models the three pieces of real logic in that system and proves
properties about them. Queue, store and clock are treated as inputs:

- `records.dfy` (`Records`): the two `message` structs, the JSON body as an
  abstract value (a well-formed object or malformed bytes), the fatal error
  kinds, and the encode/decode pair that links producer and consumer.
- `completion.dfy` (`Completion`): the rule that the consumer handler and the
  producer's delivery loop share. Bump a counter and signal when the bumped
  value equals the batch size. This signals exactly once, once the batch size
  is reached.
- `consumer_handler.dfy` (`ConsumerHandler`): the handler closure.
  - `Coordinator` is a class whose fields are the counter, the store's
    collection (append-only) and the number of signals sent. `Handle` is one
    handler invocation.
  - `Run` is the handler over a sequence of deliveries, run one at a time.
    The lemmas about it cover counting, signalling, enrichment and the first
    fatal error.
- `store.dfy` (`Store`): the read-back query, as a predicate on which answers
  the store may give: the `limit` records with the smallest consumption times,
  in consumption order. It also proves that an answer always exists, and that
  on a store strictly ordered by consumption time the answer is unique for
  every limit: the store's first `Min(limit, size)` records.
- `order_verifier.dfy` (`OrderVerifier`): the `for cur.Next` read-back loop
  and the `for i` order-check loop. Each is a method proved equal to a
  specification function, and lemmas characterise those functions.
- `producer.dfy` (`Producer`): the generation loop and the delivery-report
  counting loop, both as methods proved against specification functions.
- `pipeline.dfy` (`Pipeline`): end-to-end facts for the sequential, in-order
  case.

What the model treats as inputs:

- Each delivery the consumer handles is a `Delivery`: the queue body, the clock
  reading `time.Now()` would give after decoding, and whether `InsertOne`
  succeeds.
- The faker's field values and the producer's clock readings are sequences
  passed to `Generate`.
- The producer's event stream is a sequence of `Event`s.
- The read-back cursor is a sequence of documents, each either a record or a
  document that fails to decode.
- `log.Fatal` becomes a distinct outcome value: `Fatal(DecodeFailed)`,
  `Fatal(InsertFailed)`, `Fatal(FindFailed)`, `Fatal(ReadFailed)`, `WrongOrder`
  or `Success`. Go's runtime panic on `messages[i]` past the end becomes
  `IndexOutOfRange(index, length)`.

Behaviour of the code worth noting:

- The order check does not require `seedSize` records. It indexes
  `messages[i+1]` up to `seedSize - 1` whatever was read. A short read
  therefore ends in an index-out-of-range panic at index `len(messages)`, unless
  an inverted pair comes first, in which case it reports "wrong order"
  (`OrderVerifier.OrderVerdict`).
- The delivery counter counts every `*kafka.Message` event, including reports
  of failed deliveries. Delivery failures are not fatal in the code
  (`Producer.FailedDeliveriesCount`).
- The counter is bumped with `atomic.AddInt64` but then read without
  synchronisation. Only the sequential reading (compare the post-increment
  value) is modelled.
- Publish times come straight from the clock, so they are non-decreasing only
  if the clock is, and they may tie. The check accepts ties because its
  comparison is strict `>`.
- `cur.Next` ends the read-back loop silently on a cursor error, because
  `cur.Err()` is never checked. In the model such a cursor is just a shorter
  document sequence, which leads to the short-read outcomes above rather than a
  read failure.

## Model

| member | source | states |
|---|---|---|
| `Records.Unmarshal` | consumer/main.go:55-59 | Decoding fails exactly on a malformed body, with the decode fault; otherwise the record keeps the body's `number` and `published_at`. |
| `Records.ProducerToConsumer` | producer/main.go:61-68 | A body the producer encodes decodes at the consumer: `id`, `email`, `first_name`, `last_name` and `number` are unchanged, `Published` arrives as `PublishedAt` (shared wire name `published_at`), and `ConsumedAt` is zero. |
| `Completion.SignalsAfter` | consumer/main.go:67-70 | After `k` bumps of a counter that signals when its post-increment value equals `seedSize`, at most one signal has been sent, and one has been sent iff `1 <= seedSize <= k`. |
| `ConsumerHandler.Enrich` | consumer/main.go:60 | Stamping sets `ConsumedAt` to the clock reading and leaves `ID`, `Email`, `FirstName`, `LastName`, `Number` and `PublishedAt` as decoded. |
| `ConsumerHandler.Step` | consumer/main.go:54-73 | One handler invocation gets through iff the body decodes and the insert succeeds. It then bumps the count by one, appends the stamped record to the store, and adds a signal iff the bumped count equals `seedSize`. Otherwise it ends with the decode fault, or the insert fault for a body that decoded. |
| `ConsumerHandler.Run` | consumer/main.go:46-73 | The handler applied to each delivery in turn from the dropped collection and zero count, stopping at the first fatal fault. A run that gets through has counted and stored one record per delivery. `RunState` states the rest. |
| `ConsumerHandler.RunState` | consumer/main.go:54-73 | A sequential run gets through iff every delivery decodes and inserts. It then counts each delivery exactly once, persists each one's enriched record in handling order, and has sent the signals `SignalsAfter` prescribes. |
| `ConsumerHandler.SignalAtMostOnce` | consumer/main.go:67-70 | Over any handled sequence the completion signal is sent at most once, and it is sent iff at least `seedSize` messages were handled. |
| `ConsumerHandler.SignalMarksFullBatch` | consumer/main.go:62-70 | The delivery that sends the signal is the `seedSize`-th one: at that moment the count and the store both hold exactly `seedSize`. |
| `ConsumerHandler.RunStopsAtFirstFault` | consumer/main.go:56-67 | The first failing delivery ends the run with its own fault (decode before insert), and the count before it equals the number handled. The failing message is never counted. |
| `ConsumerHandler.Coordinator.constructor` | consumer/main.go:46-52 | After the collection is dropped: counter zero, store empty, no signal sent. |
| `ConsumerHandler.Coordinator.Handle` | consumer/main.go:54-73 | On success the counter grows by one, the enriched record is appended to the store, and a signal is added iff the new count equals `seedSize`. On a decode or insert failure the fatal fault is returned and nothing changes. The state always equals the run over the deliveries handled so far, so the signal has been sent at most once, and it has been sent iff `1 <= seedSize <= count`. |
| `Store.IsFindResult` | consumer/main.go:94-97 | Defines the answers `Find` may give, sorted ascending by `consumed_at` and limited to `limit`: exactly `Min(limit, size)` records, where `size` is the store's size, drawn from the store without duplication, sorted by consumption time, none consumed later than a record left out. Its contract is carried by `FindResultExists` and `FindResultUnique`. |
| `Store.FindResultExists` | consumer/main.go:94-97 | The query sorted by `consumed_at` and limited to `seedSize` always has an answer that meets its description. |
| `Store.FindResultUnique` | consumer/main.go:94-97 | When the store is strictly ordered by consumption time, the query has exactly one answer for any limit: the store's first `Min(limit, size)` records, where `size` is the store's size. |
| `OrderVerifier.Decoded` | consumer/main.go:103-110 | The read-back succeeds iff every document decodes (otherwise it fails with the read fault), and then yields each document's record, in cursor order. |
| `OrderVerifier.ReadBack` | consumer/main.go:102-110 | The `for cur.Next` loop appending decoded records to `messages` computes `Decoded`. |
| `OrderVerifier.Scan` | consumer/main.go:112-116 | From index `i`: "wrong order" iff an inverted pair lies before both `seedSize - 1` and the end of the records. "success" iff there is none and the loop does not run past the end. Otherwise a panic at index `len(messages)`. |
| `OrderVerifier.OrderVerdict` | consumer/main.go:112-117 | The order check reports "wrong order" iff some `k < seedSize - 1` within the records read has `PublishedAt[k] > PublishedAt[k+1]`, and "success" iff there is no such `k` and at least `seedSize` records (or `seedSize <= 1`) were read. Otherwise it panics at index `len(messages)`. |
| `OrderVerifier.CheckOrder` | consumer/main.go:112-117 | The `for i := 0; i < seedSize-1; i++` loop, including its out-of-range panic, computes `OrderVerdict`. |
| `OrderVerifier.Verification` | consumer/main.go:97-117 | The verification phase is fatal with the query fault iff the query fails, and with the read fault iff some document of the cursor does not decode. Otherwise its verdict is the order check on the records read back. |
| `OrderVerifier.VerifyStore` | consumer/main.go:97-117 | The main line's query result handling, `for cur.Next` loop and order-check loop, run in sequence, compute `Verification`. |
| `OrderVerifier.SuccessIffNonDecreasing` | consumer/main.go:112-117 | With at least `seedSize` records read, the check succeeds iff the first `seedSize` are non-decreasing in `PublishedAt` (ties accepted), and otherwise reports "wrong order", never a panic. |
| `OrderVerifier.SwappedPairDetected` | consumer/main.go:112-115 | A full batch in strictly increasing publish order with one adjacent pair swapped is reported as "wrong order", and the swapped pair is its only inverted pair. |
| `OrderVerifier.ReadBackKeepsOrder` | consumer/main.go:103-110 | Reading back a query answer yields exactly that answer, in cursor order. |
| `OrderVerifier.ReadBackSorted` | consumer/main.go:94-110 | Read back from any answer of the query, `messages` decodes in full, is sorted ascending by `consumed_at`, and holds `Min(limit, size)` records, where `size` is the store's size. |
| `OrderVerifier.FullBatchVerdict` | consumer/main.go:102-117 | A query answer of exactly `seedSize` records, read back and checked, gives "success" iff it is non-decreasing in publish time, otherwise "wrong order". |
| `OrderVerifier.CompletedRunIsCheckable` | consumer/main.go:88-117 | Once the handler has signalled, the query returns exactly `seedSize` records, so the check never panics. It says "success" iff they are non-decreasing in publish time, otherwise "wrong order". |
| `Records.Marshal` | producer/main.go:48 | Encoding the producer's struct always gives a well-formed body, and it has no `consumed_at` member. `ProducerToConsumer` states what the consumer decodes from it. |
| `Producer.Produced` | producer/main.go:45-54 | One iteration's message goes to partition 1 of the topic and is keyed by the faked `ID`. The consumer decodes from its body the faked payload with `Number = i`, `PublishedAt` equal to the clock reading, and `ConsumedAt` zero. |
| `Producer.Batch` | producer/main.go:44-55 | The batch is one `Produced` message per iteration, `n` of them, and message `k` carries `Number = k`. `BatchContents` and `Generate` state the rest. |
| `Producer.Generate` | producer/main.go:44-55 | Exactly `seedSize` messages are sent (none for a non-positive size). The `k`-th goes to partition 1 of the topic, keyed by the `k`-th faked message's `ID`, and its body encodes that message with `Number = k` and `Published` set to the `k`-th clock reading. |
| `Producer.BatchContents` | producer/main.go:44-54 | Each sent message targets partition 1 of `poc-test-part-1` and is keyed by its `ID`. The consumer decodes from it the faked payload with `Number = k` and `PublishedAt` equal to the `k`-th clock reading. |
| `Producer.BatchPublishedNonDecreasing` | producer/main.go:47 | With non-decreasing clock readings, publish times are non-decreasing in `Number` order across the batch. |
| `Producer.Reports` | producer/main.go:33-36 | The number of delivery-report events is at most the number of events. |
| `Producer.ReportsAppend` | producer/main.go:33-36 | The report count of two event streams back to back is the sum of their counts. |
| `Producer.OtherEventsIgnored` | producer/main.go:33-36 | An event that is not a `*kafka.Message`, anywhere in the stream, leaves the counter unchanged. |
| `Producer.FailedDeliveriesCount` | producer/main.go:33-36 | A report of a failed delivery, anywhere in the stream, adds one to the count, exactly as a report of a successful delivery does. |
| `Producer.CountDeliveries` | producer/main.go:30-42 | The goroutine's loop ends with the counter equal to the number of delivery reports, and it has signalled at most once: exactly once iff `1 <= seedSize <=` that number. |
| `Producer.SignalAtBatchSizeReport` | producer/main.go:36-39 | The signal goes out at the report that brings the counter to `seedSize`, not before, and no later event sends it again. |
| `Pipeline.InOrderRunPersistsBatch` | consumer/main.go:54-73 | The consumer handling the producer's batch in order leaves one record per produced message, with its payload, `Number = k`, the producer's clock reading and the consumer's clock reading, and signals once. |
| `Pipeline.InOrderStoreOrdered` | consumer/main.go:60 | With a non-decreasing producer clock and a strictly increasing consumer clock, that store is strictly ordered by consumption time and non-decreasing in publish time. |
| `Pipeline.InOrderRunPassesCheck` | consumer/main.go:94-117 | In that case the query's only answer is the store itself, and the verification phase reports "success". |

## Left out

- Kafka client construction, configuration and close (`newConsumer`, `kafka.NewProducer`, `p.Close`, `kConsumer.Close`), the MongoDB connection (`newMongoDB`), and environment variables: these are library calls and I/O.
- The store's engine: `Drop` is the empty initial store, `InsertOne` is an append whose success is an input, and `Find` is described by `Store.IsFindResult`. An insert that fails after the document was written is not modelled.
- MongoDB's special meaning of a zero or negative limit is not modelled. The limit is the non-negative `seedSize`.
- JSON and BSON encoding internals: bodies are abstract values, and malformed input is a value of its own. The producer ignores the error of `json.Marshal`, which cannot fail on its struct. Message keys are strings rather than byte slices.
- Faker data generation: faked messages are arbitrary inputs.
- `time.Now().UnixMicro()` is not called: clock readings are integers supplied per delivery (consumer) or per iteration (producer).
- Goroutines, channels and the worker pool (`hfkafka.WithWorkers(workers)`, `c.Start`, the event goroutine, the unbuffered channel sends): the model is sequential. So it does not capture the data race between `atomic.AddInt64(&count, 1)` and the unsynchronised read of `count` on the next line, nor out-of-order handling by concurrent workers beyond what an arbitrary delivery sequence expresses.
- The indefinite waits on `resultChannel` and `waitChannel`, and the hang when fewer than `seedSize` messages arrive: these are liveness properties outside a sequential model.
- 64-bit integer widths (`int64` counter and timestamps, Go `int`): integers are unbounded, since no realistic run comes near the limits.
- `Producer.Generate`: requires at least `seedSize` faked messages and clock readings, because these stand for the faker and the clock, which never run out.
- `ConsumerHandler.Coordinator.Handle`: after a fatal fault the real process exits. The model leaves the state unchanged and lets further calls happen; `Run` stops at the first fault.
- `Producer.Reports`: its own contract only bounds the count. What it counts is pinned down by `Producer.CountDeliveries`, `Producer.OtherEventsIgnored` and `Producer.FailedDeliveriesCount`.
- The final `log.Print("success")` of the producer and the process exit of every `log.Fatal` are represented only as outcome values.
