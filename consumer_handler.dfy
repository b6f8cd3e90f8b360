/** The consumer's message handler (consumer/main.go:54-73), run one message at
    a time. Each delivery is decoded, stamped with the current clock reading,
    persisted, and counted; when the post-increment count equals the batch size
    the handler sends the completion signal. A decode or insert failure is fatal
    to the process and happens before the count moves. */
module ConsumerHandler {
  import opened Records
  import Completion

  /** One message as the handler meets it: the queue body, the clock reading the
      handler would take after decoding it, and whether the store accepts the
      insert. */
  datatype Delivery = Delivery(body: WireBody, clock: int, insertOk: bool)

  /** The state the handler touches: the shared counter, the store's collection
      (append-only, in insertion order) and the number of completion signals sent. */
  datatype HandlerState = HandlerState(count: int, store: seq<ConsumerMessage>, signals: nat)

  /** What one invocation of the handler comes to. */
  datatype Status = Handled | Fatal(fault: Fault)

  /** The state after the collection has been dropped and before any message. */
  const Initial := HandlerState(0, [], 0)

  /** Stamping a decoded message with the consumption time: only `consumedAt`
      is overwritten, every other field is persisted as decoded. */
  function Enrich(m: ConsumerMessage, now: int): (e: ConsumerMessage)
    ensures e.consumedAt == now
    ensures e.(consumedAt := m.consumedAt) == m
    ensures e.id == m.id && e.email == m.email && e.firstName == m.firstName
    ensures e.lastName == m.lastName && e.number == m.number && e.publishedAt == m.publishedAt
  {
    m.(consumedAt := now)
  }

  /** A delivery that the handler gets all the way through. */
  predicate Succeeds(d: Delivery)
  {
    Unmarshal(d.body).Ok? && d.insertOk
  }

  /** The record a successful delivery leaves in the store. */
  function Persisted(d: Delivery): ConsumerMessage
    requires Unmarshal(d.body).Ok?
  {
    Enrich(Unmarshal(d.body).value, d.clock)
  }

  /** The fatal condition a failing delivery ends the process with; decoding
      comes first, so a body that does not decode never reaches the store. */
  function FaultOf(d: Delivery): Fault
    requires !Succeeds(d)
  {
    if Unmarshal(d.body).Err? then DecodeFailed else InsertFailed
  }

  /** One run of the handler on state `s`: it gets through exactly when the
      delivery decodes and inserts, and then has counted it, persisted its
      stamped record at the end of the store, and signalled iff the bumped count
      equals the batch size; otherwise it ends with the delivery's fault. */
  function Step(seedSize: int, s: HandlerState, d: Delivery): (r: Result<HandlerState>)
    ensures r.Ok? <==> Succeeds(d)
    ensures r.Err? ==> r.fault == FaultOf(d)
    ensures r.Ok? ==>
      && r.value.count == s.count + 1
      && r.value.store == s.store + [Persisted(d)]
      && r.value.signals == s.signals + (if s.count + 1 == seedSize then 1 else 0)
  {
    match Unmarshal(d.body)
    case Err(f) => Err(f)
    case Ok(m) =>
      var stamped := Enrich(m, d.clock);
      if !d.insertOk then Err(InsertFailed)
      else
        var count := s.count + 1;
        Ok(HandlerState(count, s.store + [stamped], s.signals + if count == seedSize then 1 else 0))
  }

  /** The handler run over a sequence of deliveries in order, from the freshly
      reset state; the first fatal condition ends the run. A run that gets
      through has one count and one stored record per delivery. */
  function Run(seedSize: int, ds: seq<Delivery>): (r: Result<HandlerState>)
    ensures r.Ok? ==> r.value.count == |ds| && |r.value.store| == |ds|
    decreases |ds|
  {
    if ds == [] then Ok(Initial)
    else
      match Run(seedSize, ds[..|ds| - 1])
      case Err(f) => Err(f)
      case Ok(s) => Step(seedSize, s, ds[|ds| - 1])
  }

  /** A run gets through exactly when every delivery does; it then has counted
      each delivery once, persisted each one's enriched record in handling order,
      and sent as many signals as the shared completion rule prescribes. */
  lemma {:induction false} RunState(seedSize: int, ds: seq<Delivery>)
    ensures Run(seedSize, ds).Ok? <==> forall k :: 0 <= k < |ds| ==> Succeeds(ds[k])
    ensures Run(seedSize, ds).Ok? ==>
      var s := Run(seedSize, ds).value;
      && s.count == |ds|
      && |s.store| == |ds|
      && (forall k :: 0 <= k < |ds| ==> s.store[k] == Persisted(ds[k]))
      && s.signals == Completion.SignalsAfter(seedSize, |ds|)
    decreases |ds|
  {
    if ds != [] {
      var init := ds[..|ds| - 1];
      RunState(seedSize, init);
      assert forall k :: 0 <= k < |init| ==> init[k] == ds[k];
    }
  }

  /** Over any sequence of handled messages the completion signal is sent at
      most once, and it is sent exactly when at least `seedSize` of them were
      handled (for a positive batch size). */
  lemma SignalAtMostOnce(seedSize: int, ds: seq<Delivery>)
    requires Run(seedSize, ds).Ok?
    ensures Run(seedSize, ds).value.signals <= 1
    ensures Run(seedSize, ds).value.signals == 1 <==> 1 <= seedSize <= |ds|
  {
    RunState(seedSize, ds);
  }

  /** The delivery that sends the signal is the one that persists the
      `seedSize`-th record, so at that moment the store holds the whole batch. */
  lemma SignalMarksFullBatch(seedSize: int, ds: seq<Delivery>)
    requires ds != []
    requires Run(seedSize, ds[..|ds| - 1]).Ok? && Run(seedSize, ds[..|ds| - 1]).value.signals == 0
    requires Run(seedSize, ds).Ok? && Run(seedSize, ds).value.signals == 1
    ensures |ds| == seedSize
    ensures Run(seedSize, ds).value.count == seedSize
    ensures |Run(seedSize, ds).value.store| == seedSize
  {
    RunState(seedSize, ds[..|ds| - 1]);
    RunState(seedSize, ds);
  }

  /** The first failing delivery ends the run with its own fault, and the
      counter never moves for it: the run before it got through with its count
      equal to the number of deliveries handled. */
  lemma {:induction false} RunStopsAtFirstFault(seedSize: int, ds: seq<Delivery>, k: nat)
    requires k < |ds|
    requires forall j :: 0 <= j < k ==> Succeeds(ds[j])
    requires !Succeeds(ds[k])
    ensures Run(seedSize, ds) == Err(FaultOf(ds[k]))
    ensures Run(seedSize, ds[..k]).Ok? && Run(seedSize, ds[..k]).value.count == k
    decreases |ds|
  {
    var init := ds[..|ds| - 1];
    assert init[..k] == ds[..k] by {
      if k < |init| { assert init[..k] == ds[..|ds| - 1][..k]; }
    }
    RunState(seedSize, ds[..k]);
    if k < |ds| - 1 {
      RunStopsAtFirstFault(seedSize, init, k);
    } else {
      assert init == ds[..k];
    }
  }

  /** The handler's shared state. The Go program keeps the counter in a local
      variable captured by the handler closure and the records in a store
      collection; here both are fields, and `handled` records, for the proof,
      the deliveries that got through. */
  class Coordinator {
    const seedSize: int
    var count: int
    var store: seq<ConsumerMessage>
    var signals: nat
    ghost var handled: seq<Delivery>

    function State(): HandlerState
      reads this
    {
      HandlerState(count, store, signals)
    }

    /** The state is what running the handler over the handled deliveries gives. */
    ghost predicate Valid()
      reads this
    {
      Run(seedSize, handled) == Ok(State())
    }

    /** Dropping the collection and starting the counter at zero. */
    constructor (seedSize: int)
      ensures this.seedSize == seedSize
      ensures Valid() && handled == []
      ensures count == 0 && store == [] && signals == 0
    {
      this.seedSize := seedSize;
      count := 0;
      store := [];
      signals := 0;
      handled := [];
    }

    /** One invocation of the handler: decode, stamp, insert, count, and signal
        when the post-increment count equals the batch size. */
    method Handle(d: Delivery) returns (status: Status)
      requires Valid()
      modifies this
      ensures Valid()
      ensures status == Handled <==> Succeeds(d)
      ensures !Succeeds(d) ==> status == Fatal(FaultOf(d))
      ensures Succeeds(d) ==>
        && count == old(count) + 1
        && store == old(store) + [Persisted(d)]
        && signals == old(signals) + (if count == seedSize then 1 else 0)
        && handled == old(handled) + [d]
      ensures !Succeeds(d) ==> State() == old(State()) && handled == old(handled)
      ensures signals <= 1 && (signals == 1 <==> 1 <= seedSize <= count)
    {
      var decoded := Unmarshal(d.body);
      SignalAtMostOnce(seedSize, handled);
      if decoded.Err? {
        return Fatal(decoded.fault);
      }
      var m := decoded.value;
      m := m.(consumedAt := d.clock);
      if !d.insertOk {
        return Fatal(InsertFailed);
      }
      store := store + [m];
      count := count + 1;
      if count == seedSize {
        signals := signals + 1;
      }
      handled := handled + [d];
      assert handled[..|handled| - 1] == old(handled);
      status := Handled;
      SignalAtMostOnce(seedSize, handled);
    }
  }
}
