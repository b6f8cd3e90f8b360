/** The record model shared by the producer and the consumer: the two `message`
    structs, the JSON body that travels through the queue, and the error and
    outcome values that stand for the program's fatal log lines. */
module Records {

  datatype Option<T> = None | Some(value: T)

  /** The fatal conditions of the consumer, each of which ends the process. */
  datatype Fault =
    | DecodeFailed   // the queue body is not a valid JSON message
    | InsertFailed   // the store rejected the insert
    | FindFailed     // the read-back query could not be issued
    | ReadFailed     // a document of the read-back cursor could not be decoded

  datatype Result<T> = Ok(value: T) | Err(fault: Fault)

  /** The consumer's `message`: identity, opaque payload, the producer's sequence
      number, and the publish and consumption timestamps in microseconds. */
  datatype ConsumerMessage = ConsumerMessage(
    id: string,
    email: string,
    firstName: string,
    lastName: string,
    number: int,
    publishedAt: int,
    consumedAt: int)

  /** The producer's `message`: the same fields without a consumption time. */
  datatype ProducerMessage = ProducerMessage(
    id: string,
    email: string,
    firstName: string,
    lastName: string,
    number: int,
    published: int)

  /** The members of a JSON object body, one per wire name: `id`, `email`,
      `first_name`, `last_name`, `number`, `published_at` and an optional
      `consumed_at`. */
  datatype WireRecord = WireRecord(
    id: string,
    email: string,
    firstName: string,
    lastName: string,
    number: int,
    publishedAt: int,
    consumedAt: Option<int>)

  /** A queue payload: a well-formed JSON object, or bytes that do not decode. */
  datatype WireBody = Json(record: WireRecord) | Malformed

  /** JSON encoding of the producer's struct: its `Published` field goes out
      under the name `published_at`, and there is no `consumed_at`. */
  function Marshal(p: ProducerMessage): (b: WireBody)
    ensures b.Json? && b.record.consumedAt.None?
  {
    Json(WireRecord(p.id, p.email, p.firstName, p.lastName, p.number, p.published, None))
  }

  /** JSON decoding into the consumer's struct; a member that is absent keeps
      Go's zero value. */
  function Unmarshal(b: WireBody): (r: Result<ConsumerMessage>)
    ensures r.Err? <==> b.Malformed?
    ensures r.Err? ==> r.fault == DecodeFailed
    ensures r.Ok? ==> r.value.publishedAt == b.record.publishedAt && r.value.number == b.record.number
  {
    match b
    case Malformed => Err(DecodeFailed)
    case Json(w) =>
      var consumed := match w.consumedAt { case Some(t) => t case None => 0 };
      Ok(ConsumerMessage(w.id, w.email, w.firstName, w.lastName, w.number, w.publishedAt, consumed))
  }

  /** What the consumer decodes from a body the producer sent: every shared
      field intact, `Published` arriving as `PublishedAt`, consumption time zero. */
  lemma ProducerToConsumer(p: ProducerMessage)
    ensures Unmarshal(Marshal(p)).Ok?
    ensures var m := Unmarshal(Marshal(p)).value;
      && m.id == p.id && m.email == p.email
      && m.firstName == p.firstName && m.lastName == p.lastName
      && m.number == p.number && m.publishedAt == p.published
      && m.consumedAt == 0
  {
  }
}
