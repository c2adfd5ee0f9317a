/**
 The target bridge (src/target_mqtt/forwarding.rs) as a machine over its atomic
 operations: any number of producers, one worker, and `stop`. Every load, store
 and read-modify-write of the shared counters, the sender lookup, `try_send` and
 `recv` is one step, so a run is any interleaving of them.
 */
module Forwarding {
  import opened Common

  /** `id` numbers the offers that passed the topic and stopping checks. */
  datatype Message = Message(id: nat, topic: string, payload: seq<byte>, retained: bool)

  /** Where a producer stands inside `offer_publish_with_retain`; an idle producer is absent. */
  datatype Producer =
    | Passed(m: Message)       // topic and stopping checks passed
    | Online(m: Message)       // the sink reported itself connected
    | Reserved(m: Message)     // a pending slot is taken
    | HasSender(m: Message)    // holds a clone of the channel sender
    | Returning(m: Message)    // must give its slot back
    | Dropping(m: Message)     // must count the drop

  datatype Worker =
    | Waiting
    | Holding(m: Message)      // received, the stopping flag not read yet
    | Cleared(m: Message)      // the stopping flag was read as false
    | Ready(m: Message)        // the sink reported itself connected
    | Publishing(m: Message)   // handed to the sink
    | Succeeded(m: Message)    // must count the success
    | Failed(m: Message)       // must count the drop
    | Counted(m: Message)      // must release the slot
    | Exited

  /** Where an offered message is; the last two are final. */
  datatype Place = AtProducer | InChannel | AtWorker | CountedDropped | CountedSuccessful

  datatype System = System(
    maxPending: nat,
    pending: nat,
    dropped: nat,
    successful: nat,
    stopping: bool,
    senderOpen: bool,
    channel: seq<Message>,
    producers: map<nat, Producer>,
    worker: Worker,
    // History, never read by a step:
    places: seq<Place>,      // by message id
    sent: seq<Message>,      // in the order of the successful `try_send`s
    received: nat,           // how many of `sent` the worker took
    reached: seq<int>)       // the positions in `sent` handed to the sink, in order

  datatype Action =
    | Offer(t: nat, topic: string, payload: seq<byte>, retained: bool)
    | CheckConnected(t: nat, connected: bool)
    | Reserve(t: nat)
    | LookupSender(t: nat)
    | TrySend(t: nat)
    | GiveBack(t: nat)
    | CountDrop(t: nat)
    | Receive
    | CheckStopping
    | CheckSink(connected: bool)
    | HandOver
    | FinishPublish(ok: bool)
    | CountResult
    | ReleaseSlot
    | SetStopping
    | TakeSender

  function Init(maxPending: nat): System {
    System(maxPending, 0, 0, 0, false, true, [], map[], Waiting, [], [], 0, [])
  }

  /** `fetch_sub(1)` on an unsigned counter wraps at zero. */
  function FetchSub(value: nat): nat {
    if value == 0 then USIZE_MAX else value - 1
  }

  /** The channel was created with room for `max_pending` messages. */
  predicate TrySendFails(s: System) {
    |s.channel| >= s.maxPending || s.worker.Exited?
  }

  /** The channel stays open while the bridge or any producer holds a sender. */
  predicate AnySender(senderOpen: bool, producers: map<nat, Producer>) {
    senderOpen || exists t :: t in producers && producers[t].HasSender?
  }

  predicate Enabled(s: System, a: Action) {
    match a
    case Offer(t, _, _, _) => t !in s.producers && !s.stopping
    case CheckConnected(t, _) => t in s.producers && s.producers[t].Passed?
    case Reserve(t) => t in s.producers && s.producers[t].Online?
    case LookupSender(t) => t in s.producers && s.producers[t].Reserved?
    case TrySend(t) => t in s.producers && s.producers[t].HasSender?
    case GiveBack(t) => t in s.producers && s.producers[t].Returning?
    case CountDrop(t) => t in s.producers && s.producers[t].Dropping?
    case Receive => s.worker.Waiting? && (s.channel != [] || !AnySender(s.senderOpen, s.producers))
    case CheckStopping => s.worker.Holding?
    case CheckSink(_) => s.worker.Cleared?
    case HandOver => s.worker.Ready?
    case FinishPublish(_) => s.worker.Publishing?
    case CountResult => s.worker.Succeeded? || s.worker.Failed?
    case ReleaseSlot => s.worker.Counted?
    case SetStopping => true
    case TakeSender => s.stopping && s.senderOpen
  }

  function Next(s: System, a: Action): System
    requires Enabled(s, a)
  {
    match a
    case Offer(t, topic, payload, retained) =>
      s.(producers := s.producers[t := Passed(Message(|s.places|, topic, payload, retained))],
         places := s.places + [AtProducer])
    case CheckConnected(t, connected) =>
      var m := s.producers[t].m;
      s.(producers := s.producers[t := if connected then Online(m) else Dropping(m)])
    case Reserve(t) =>
      var m := s.producers[t].m;
      if s.pending < s.maxPending
      then s.(pending := s.pending + 1, producers := s.producers[t := Reserved(m)])
      else s.(producers := s.producers[t := Dropping(m)])
    case LookupSender(t) =>
      var m := s.producers[t].m;
      s.(producers := s.producers[t := if s.senderOpen then HasSender(m) else Returning(m)])
    case TrySend(t) =>
      var m := s.producers[t].m;
      if TrySendFails(s) then s.(producers := s.producers[t := Returning(m)])
      else s.(channel := s.channel + [m], producers := s.producers - {t},
              places := Move(s.places, m, InChannel), sent := s.sent + [m])
    case GiveBack(t) =>
      s.(pending := FetchSub(s.pending), producers := s.producers[t := Dropping(s.producers[t].m)])
    case CountDrop(t) =>
      s.(dropped := s.dropped + 1, producers := s.producers - {t},
         places := Move(s.places, s.producers[t].m, CountedDropped))
    case Receive =>
      if s.channel == [] then s.(worker := Exited)
      else
        var m := s.channel[0];
        s.(channel := s.channel[1..], worker := Holding(m), received := s.received + 1,
           places := Move(s.places, m, AtWorker))
    case CheckStopping => s.(worker := if s.stopping then Failed(s.worker.m) else Cleared(s.worker.m))
    case CheckSink(connected) => s.(worker := if connected then Ready(s.worker.m) else Failed(s.worker.m))
    case HandOver => s.(worker := Publishing(s.worker.m), reached := s.reached + [s.received - 1])
    case FinishPublish(ok) =>
      s.(worker := if ok then Succeeded(s.worker.m) else Failed(s.worker.m))
    case CountResult =>
      var m := s.worker.m;
      if s.worker.Succeeded?
      then s.(successful := s.successful + 1, worker := Counted(m), places := Move(s.places, m, CountedSuccessful))
      else s.(dropped := s.dropped + 1, worker := Counted(m), places := Move(s.places, m, CountedDropped))
    case ReleaseSlot =>
      s.(pending := FetchSub(s.pending), worker := Waiting)
    case SetStopping => s.(stopping := true)
    case TakeSender => s.(senderOpen := false)
  }

  function Move(places: seq<Place>, m: Message, to: Place): seq<Place> {
    if m.id < |places| then places[m.id := to] else places
  }

  // ---- The invariant, by the parts of the state each piece speaks about ----

  predicate HoldsSlot(p: Producer) {
    p.Reserved? || p.HasSender? || p.Returning?
  }

  function SlotHolders(producers: map<nat, Producer>): set<nat> {
    set t | t in producers && HoldsSlot(producers[t])
  }

  function WorkerSlot(w: Worker): nat {
    if w.Waiting? || w.Exited? then 0 else 1
  }

  /** One message is at the worker and not counted yet. */
  function WorkerLoad(w: Worker): nat {
    if w.Waiting? || w.Exited? || w.Counted? then 0 else 1
  }

  /** `pending` is the slots held by producers, by the queue and by the worker. */
  predicate SlotsExact(s: System) {
    && s.pending == |SlotHolders(s.producers)| + |s.channel| + WorkerSlot(s.worker)
    && s.pending <= s.maxPending
  }

  function Census(places: seq<Place>, p: Place): nat {
    multiset(places)[p]
  }

  /** The census by place: producers, queue, worker, dropped, successful. */
  predicate CensusIs(places: seq<Place>, atProducers: int, queued: int, atWorker: int, dropped: int, successful: int) {
    && Census(places, AtProducer) == atProducers
    && Census(places, InChannel) == queued
    && Census(places, AtWorker) == atWorker
    && Census(places, CountedDropped) == dropped
    && Census(places, CountedSuccessful) == successful
  }

  /** Each place holds exactly the messages that its counter or queue accounts for. */
  predicate PlacesExact(s: System) {
    CensusIs(s.places, |s.producers.Keys|, |s.channel|, WorkerLoad(s.worker), s.dropped, s.successful)
  }

  predicate At(places: seq<Place>, m: Message, p: Place) {
    m.id < |places| && places[m.id] == p
  }

  predicate ProducersPlaced(producers: map<nat, Producer>, places: seq<Place>) {
    && (forall t :: t in producers ==> At(places, producers[t].m, AtProducer))
    && (forall t, u :: t in producers && u in producers && t != u ==> producers[t].m.id != producers[u].m.id)
  }

  predicate SentPlaced(sent: seq<Message>, received: nat, places: seq<Place>) {
    && received <= |sent|
    && (forall i :: 0 <= i < |sent| ==> sent[i].id < |places| && !At(places, sent[i], AtProducer))
    && (forall i, j :: 0 <= i < j < |sent| ==> sent[i].id != sent[j].id)
    && (forall i :: received <= i < |sent| ==> At(places, sent[i], InChannel))
  }

  /** The worker's message is the last one received and lies where its phase says. */
  predicate WorkerPlaced(worker: Worker, sent: seq<Message>, received: nat, places: seq<Place>) {
    worker.Waiting? || worker.Exited? ||
    (0 < received <= |sent| && worker.m == sent[received - 1] && (worker.Counted? || At(places, worker.m, AtWorker)))
  }

  /** What the sink saw is a strictly increasing choice of what was received. */
  predicate ReachedInOrder(reached: seq<int>, received: nat, worker: Worker) {
    && (forall k :: 0 <= k < |reached| ==> 0 <= reached[k] < received)
    && (forall k, l :: 0 <= k < l < |reached| ==> reached[k] < reached[l])
    && (worker.Holding? || worker.Cleared? || worker.Ready? ==> forall k :: 0 <= k < |reached| ==> reached[k] < received - 1)
    && (worker.Publishing? || worker.Succeeded? ==> received - 1 in reached)
  }

  /** Only what the sink saw is ever counted as successful. */
  predicate SuccessesReached(sent: seq<Message>, received: nat, reached: seq<int>, places: seq<Place>) {
    forall i :: 0 <= i < |sent| && At(places, sent[i], CountedSuccessful) ==> i in reached
  }

  /** The counters tell the truth. */
  predicate CountsTrue(s: System) {
    && SlotsExact(s)
    && PlacesExact(s)
  }

  /** Every message is where its place says, and the queues are in order. */
  predicate OrderTrue(s: System) {
    && ProducersPlaced(s.producers, s.places)
    && SentPlaced(s.sent, s.received, s.places)
    && s.channel == s.sent[s.received..]
    && WorkerPlaced(s.worker, s.sent, s.received, s.places)
    && ReachedInOrder(s.reached, s.received, s.worker)
    && SuccessesReached(s.sent, s.received, s.reached, s.places)
    && (s.worker.Exited? ==> s.channel == [] && !AnySender(s.senderOpen, s.producers))
    && (!s.senderOpen ==> s.stopping)
  }

  predicate Inv(s: System) {
    CountsTrue(s) && OrderTrue(s)
  }

  // ---- One step ----

  function One(b: bool): int {
    if b then 1 else 0
  }

  function SlotsOf(producers: map<nat, Producer>, t: nat): int {
    One(t in producers && HoldsSlot(producers[t]))
  }

  lemma SlotUpdate(producers: map<nat, Producer>, t: nat, p: Producer)
    ensures |SlotHolders(producers[t := p])| == |SlotHolders(producers)| - SlotsOf(producers, t) + One(HoldsSlot(p))
    ensures producers[t := p].Keys == producers.Keys + {t}
  {
    hide SlotHolders, HoldsSlot, SlotsOf;
    HoldersUpdate(producers, t, p);
    IsHolder(producers, t);
    CountWith(SlotHolders(producers), t);
    KeysUpdate(producers, t, p);
  }

  lemma KeysUpdate(producers: map<nat, Producer>, t: nat, p: Producer)
    ensures producers[t := p].Keys == producers.Keys + {t}
  {
  }

  lemma IsHolder(producers: map<nat, Producer>, t: nat)
    ensures SlotsOf(producers, t) == One(t in SlotHolders(producers))
  {
    hide HoldsSlot;
  }

  lemma HoldersUpdate(producers: map<nat, Producer>, t: nat, p: Producer)
    ensures SlotHolders(producers[t := p]) == if HoldsSlot(p) then SlotHolders(producers) + {t} else SlotHolders(producers) - {t}
  {
    hide HoldsSlot;
  }

  lemma CountWith(s: set<nat>, t: nat)
    ensures |s + {t}| == |s| + One(t !in s) && |s - {t}| == |s| - One(t in s)
  {
    if t in s { assert s + {t} == s; } else { assert s - {t} == s; }
  }

  lemma SlotRemove(producers: map<nat, Producer>, t: nat)
    ensures |SlotHolders(producers - {t})| == |SlotHolders(producers)| - SlotsOf(producers, t)
    ensures (producers - {t}).Keys == producers.Keys - {t}
  {
    assert SlotHolders(producers - {t}) == SlotHolders(producers) - {t};
  }

  /** Moving one message changes the census by exactly that message. */
  lemma MoveCounts(places: seq<Place>, m: Message, from: Place, to: Place, a: int, q: int, w: int, d: int, u: int)
    requires At(places, m, from) && CensusIs(places, a, q, w, d, u)
    ensures CensusIs(Move(places, m, to),
                     a - One(from.AtProducer?) + One(to.AtProducer?),
                     q - One(from.InChannel?) + One(to.InChannel?),
                     w - One(from.AtWorker?) + One(to.AtWorker?),
                     d - One(from.CountedDropped?) + One(to.CountedDropped?),
                     u - One(from.CountedSuccessful?) + One(to.CountedSuccessful?))
  {
    assert multiset(Move(places, m, to)) == multiset(places) - multiset{from} + multiset{to};
  }

  lemma MoveInSystem(s: System, m: Message, from: Place, to: Place)
    requires PlacesExact(s) && At(s.places, m, from)
    ensures CensusIs(Move(s.places, m, to),
                     |s.producers.Keys| - One(from.AtProducer?) + One(to.AtProducer?),
                     |s.channel| - One(from.InChannel?) + One(to.InChannel?),
                     WorkerLoad(s.worker) - One(from.AtWorker?) + One(to.AtWorker?),
                     s.dropped - One(from.CountedDropped?) + One(to.CountedDropped?),
                     s.successful - One(from.CountedSuccessful?) + One(to.CountedSuccessful?))
  {
    MoveCounts(s.places, m, from, to, |s.producers.Keys|, |s.channel|, WorkerLoad(s.worker), s.dropped, s.successful);
  }

  lemma ProducersUpdate(producers: map<nat, Producer>, places: seq<Place>, t: nat, p: Producer)
    requires ProducersPlaced(producers, places)
    requires t in producers && producers[t].m == p.m
    ensures ProducersPlaced(producers[t := p], places)
  {
  }

  lemma ProducersLeave(producers: map<nat, Producer>, places: seq<Place>, t: nat, to: Place)
    requires ProducersPlaced(producers, places) && t in producers
    ensures ProducersPlaced(producers - {t}, Move(places, producers[t].m, to))
  {
  }

  lemma ProducersFrame(producers: map<nat, Producer>, places: seq<Place>, m: Message, to: Place)
    requires ProducersPlaced(producers, places) && !At(places, m, AtProducer)
    ensures ProducersPlaced(producers, Move(places, m, to))
  {
  }

  lemma SentAppend(sent: seq<Message>, received: nat, places: seq<Place>, m: Message)
    requires SentPlaced(sent, received, places) && At(places, m, AtProducer)
    ensures SentPlaced(sent + [m], received, Move(places, m, InChannel))
  {
  }

  lemma WorkerFrame(worker: Worker, sent: seq<Message>, received: nat, places: seq<Place>, m: Message)
    requires WorkerPlaced(worker, sent, received, places) && At(places, m, AtProducer)
    ensures WorkerPlaced(worker, sent + [m], received, Move(places, m, InChannel))
  {
  }

  lemma SentFrame(sent: seq<Message>, received: nat, places: seq<Place>, m: Message, to: Place)
    requires SentPlaced(sent, received, places) && to != AtProducer
    requires !At(places, m, InChannel)
    ensures SentPlaced(sent, received, Move(places, m, to))
  {
  }

  lemma OfferStep(s: System, a: Action)
    requires Inv(s) && Enabled(s, a) && a.Offer?
    ensures Inv(Next(s, a))
  {
    hide CountsTrue, OrderTrue;
    OfferCounts(s, a);
    OfferOrder(s, a);
  }

  lemma OfferCounts(s: System, a: Action)
    requires CountsTrue(s) && Enabled(s, a) && a.Offer?
    ensures CountsTrue(Next(s, a))
  {
    SlotUpdate(s.producers, a.t, Next(s, a).producers[a.t]);
  }

  lemma OfferOrder(s: System, a: Action)
    requires OrderTrue(s) && Enabled(s, a) && a.Offer?
    ensures OrderTrue(Next(s, a))
  {
  }

  /** A producer that neither sends its message nor counts it. */
  predicate Internal(s: System, a: Action) {
    a.CheckConnected? || a.Reserve? || a.LookupSender? || a.GiveBack? || (a.TrySend? && TrySendFails(s))
  }

  lemma InternalStep(s: System, a: Action)
    requires Inv(s) && Enabled(s, a) && Internal(s, a)
    ensures Inv(Next(s, a))
  {
    hide SlotsExact, PlacesExact, OrderTrue;
    InternalSlots(s, a);
    InternalPlaces(s, a);
    InternalOrder(s, a);
  }

  lemma InternalSlots(s: System, a: Action)
    requires SlotsExact(s) && Enabled(s, a) && Internal(s, a)
    ensures SlotsExact(Next(s, a))
  {
    SlotUpdate(s.producers, a.t, Next(s, a).producers[a.t]);
  }

  lemma InternalPlaces(s: System, a: Action)
    requires PlacesExact(s) && Enabled(s, a) && Internal(s, a)
    ensures PlacesExact(Next(s, a))
  {
    SlotUpdate(s.producers, a.t, Next(s, a).producers[a.t]);
  }

  lemma InternalOrder(s: System, a: Action)
    requires OrderTrue(s) && Enabled(s, a) && Internal(s, a)
    ensures OrderTrue(Next(s, a))
  {
    hide SentPlaced, WorkerPlaced, ReachedInOrder, SuccessesReached;
    ProducersUpdate(s.producers, s.places, a.t, Next(s, a).producers[a.t]);
  }

  lemma SendStep(s: System, a: Action)
    requires Inv(s) && Enabled(s, a) && a.TrySend? && !TrySendFails(s)
    ensures Inv(Next(s, a))
  {
    hide SlotsExact, PlacesExact;
    LeaveSlots(s, a);
    LeavePlaces(s, a);
    SendOrder(s, a);
  }

  lemma DropStep(s: System, a: Action)
    requires Inv(s) && Enabled(s, a) && a.CountDrop?
    ensures Inv(Next(s, a))
  {
    hide SlotsExact, PlacesExact;
    LeaveSlots(s, a);
    LeavePlaces(s, a);
    DropOrder(s, a);
  }

  lemma LeaveSlots(s: System, a: Action)
    requires SlotsExact(s) && Enabled(s, a) && ((a.TrySend? && !TrySendFails(s)) || a.CountDrop?)
    ensures SlotsExact(Next(s, a))
  {
    SlotRemove(s.producers, a.t);
  }

  lemma LeavePlaces(s: System, a: Action)
    requires PlacesExact(s) && Enabled(s, a) && ProducersPlaced(s.producers, s.places)
    requires (a.TrySend? && !TrySendFails(s)) || a.CountDrop?
    ensures PlacesExact(Next(s, a))
  {
    var p := s.producers[a.t];
    SlotRemove(s.producers, a.t);
    MoveInSystem(s, p.m, AtProducer, if a.TrySend? then InChannel else CountedDropped);
  }

  lemma SendOrder(s: System, a: Action)
    requires OrderTrue(s) && Enabled(s, a) && a.TrySend? && !TrySendFails(s)
    ensures OrderTrue(Next(s, a))
  {
    ProducersLeave(s.producers, s.places, a.t, InChannel);
    SentAppend(s.sent, s.received, s.places, s.producers[a.t].m);
    WorkerFrame(s.worker, s.sent, s.received, s.places, s.producers[a.t].m);
  }

  lemma DropOrder(s: System, a: Action)
    requires OrderTrue(s) && Enabled(s, a) && a.CountDrop?
    ensures OrderTrue(Next(s, a))
  {
    ProducersLeave(s.producers, s.places, a.t, CountedDropped);
    SentFrame(s.sent, s.received, s.places, s.producers[a.t].m, CountedDropped);
  }

  lemma ReceiveStep(s: System)
    requires Inv(s) && Enabled(s, Receive)
    ensures Inv(Next(s, Receive))
  {
    if s.channel != [] {
      var m := s.channel[0];
      assert m == s.sent[s.received];
      MoveInSystem(s, m, InChannel, AtWorker);
      assert CountsTrue(Next(s, Receive));
      ReceiveOrder(s);
    }
  }

  lemma ReceiveOrder(s: System)
    requires OrderTrue(s) && Enabled(s, Receive) && s.channel != []
    ensures OrderTrue(Next(s, Receive))
  {
    var m := s.channel[0];
    assert m == s.sent[s.received];
    ProducersFrame(s.producers, s.places, m, AtWorker);
    assert s.channel[1..] == s.sent[s.received + 1..];
  }

  lemma CountResultStep(s: System)
    requires Inv(s) && Enabled(s, CountResult)
    ensures Inv(Next(s, CountResult))
  {
    hide OrderTrue;
    CountResultCounts(s);
    CountResultOrder(s);
  }

  lemma CountResultCounts(s: System)
    requires Inv(s) && Enabled(s, CountResult)
    ensures CountsTrue(Next(s, CountResult))
  {
    hide ProducersPlaced, SentPlaced, ReachedInOrder, SuccessesReached, SlotHolders, AnySender, Move, Census;
    MoveInSystem(s, s.worker.m, AtWorker, if s.worker.Succeeded? then CountedSuccessful else CountedDropped);
  }

  lemma CountResultOrder(s: System)
    requires OrderTrue(s) && Enabled(s, CountResult)
    ensures OrderTrue(Next(s, CountResult))
  {
    var to := if s.worker.Succeeded? then CountedSuccessful else CountedDropped;
    ProducersFrame(s.producers, s.places, s.worker.m, to);
    SentFrame(s.sent, s.received, s.places, s.worker.m, to);
  }

  predicate Readiness(a: Action) {
    a.CheckStopping? || a.CheckSink? || a.HandOver?
  }

  lemma ReadinessStep(s: System, a: Action)
    requires Inv(s) && Enabled(s, a) && Readiness(a)
    ensures Inv(Next(s, a))
  {
    hide SlotHolders, Census, ProducersPlaced, SentPlaced, ReachedInOrder, SuccessesReached;
    ReadinessReached(s, a);
    ReadinessSuccesses(s, a);
  }

  lemma ReadinessReached(s: System, a: Action)
    requires Enabled(s, a) && Readiness(a) && ReachedInOrder(s.reached, s.received, s.worker)
    requires WorkerPlaced(s.worker, s.sent, s.received, s.places)
    ensures ReachedInOrder(Next(s, a).reached, Next(s, a).received, Next(s, a).worker)
  {
    if a.HandOver? {
      var after := s.reached + [s.received - 1];
      assert after[|s.reached|] == s.received - 1;
      assert forall k :: 0 <= k < |s.reached| ==> after[k] == s.reached[k];
    }
  }

  lemma ReadinessSuccesses(s: System, a: Action)
    requires Enabled(s, a) && Readiness(a) && SuccessesReached(s.sent, s.received, s.reached, s.places)
    ensures SuccessesReached(Next(s, a).sent, Next(s, a).received, Next(s, a).reached, Next(s, a).places)
  {
  }

  lemma FinishPublishStep(s: System, a: Action)
    requires Inv(s) && Enabled(s, a) && a.FinishPublish?
    ensures Inv(Next(s, a))
  {
  }

  lemma ReleaseOrStopStep(s: System, a: Action)
    requires Inv(s) && Enabled(s, a) && (a.ReleaseSlot? || a.SetStopping? || a.TakeSender?)
    ensures Inv(Next(s, a))
  {
  }

  lemma StepKeepsInv(s: System, a: Action)
    requires Inv(s) && Enabled(s, a)
    ensures Inv(Next(s, a))
  {
    hide Inv, Next;
    if a.Offer? { OfferStep(s, a); }
    else if Internal(s, a) { InternalStep(s, a); }
    else if a.TrySend? { SendStep(s, a); }
    else if a.CountDrop? { DropStep(s, a); }
    else if a.Receive? { ReceiveStep(s); }
    else if a.CountResult? { CountResultStep(s); }
    else if Readiness(a) { ReadinessStep(s, a); }
    else if a.FinishPublish? { FinishPublishStep(s, a); }
    else { ReleaseOrStopStep(s, a); }
  }

  // ---- Whole runs ----

  predicate Follows(s: System, a: Action, s': System) {
    Enabled(s, a) && s' == Next(s, a)
  }

  predicate Run(trace: seq<System>, actions: seq<Action>, maxPending: nat) {
    && |trace| == |actions| + 1
    && trace[0] == Init(maxPending)
    && forall i {:trigger actions[i]} :: 0 <= i < |actions| ==> Follows(trace[i], actions[i], trace[i + 1])
  }

  lemma InitInv(s: System, maxPending: nat)
    requires s == Init(maxPending)
    ensures Inv(s)
  {
  }

  lemma {:induction false} RunKeepsInv(trace: seq<System>, actions: seq<Action>, maxPending: nat, i: nat)
    requires Run(trace, actions, maxPending) && i < |trace|
    ensures Inv(trace[i]) && trace[i].maxPending == maxPending
  {
    hide Inv;
    if i == 0 {
      InitInv(trace[0], maxPending);
    } else {
      RunKeepsInv(trace, actions, maxPending, i - 1);
      RunStep(trace, actions, maxPending, i - 1);
    }
  }

  lemma RunStep(trace: seq<System>, actions: seq<Action>, maxPending: nat, i: nat)
    requires Run(trace, actions, maxPending) && i < |actions| && Inv(trace[i])
    ensures Inv(trace[i + 1]) && trace[i + 1].maxPending == trace[i].maxPending
  {
    hide Inv;
    assert Follows(trace[i], actions[i], trace[i + 1]);
    StepKeepsInv(trace[i], actions[i]);
  }

  /** In every interleaving the slot count is exact and bounded, so a send never finds the
      channel full or closed and no counter ever wraps. */
  lemma SendsNeverFail(trace: seq<System>, actions: seq<Action>, maxPending: nat, i: nat)
    requires Run(trace, actions, maxPending) && i < |trace|
    ensures SlotsExact(trace[i]) && trace[i].pending <= maxPending
    ensures i < |actions| && actions[i].TrySend? ==> !TrySendFails(trace[i])
    ensures i < |actions| && (actions[i].GiveBack? || actions[i].ReleaseSlot?) ==> trace[i].pending > 0
  {
    RunKeepsInv(trace, actions, maxPending, i);
    if i < |actions| && (actions[i].TrySend? || actions[i].GiveBack?) {
      assert actions[i].t in SlotHolders(trace[i].producers);
    }
  }

  lemma {:induction false} CensusIsPartition(places: seq<Place>)
    ensures |places| == Census(places, AtProducer) + Census(places, InChannel) + Census(places, AtWorker)
                      + Census(places, CountedDropped) + Census(places, CountedSuccessful)
  {
    if places != [] {
      var n := |places| - 1;
      CensusIsPartition(places[..n]);
      assert places == places[..n] + [places[n]];
      assert forall p :: Census(places, p) == Census(places[..n], p) + if p == places[n] then 1 else 0;
      match places[n] { case AtProducer => case InChannel => case AtWorker => case _ => }
    }
  }

  /** Producers between passing the checks and holding a slot, or on the way to counting a drop. */
  function Unslotted(producers: map<nat, Producer>): set<nat> {
    set t | t in producers && !HoldsSlot(producers[t])
  }

  /** offers = dropped + successful + pending, up to exactly the threads between two counter updates. */
  lemma Conservation(trace: seq<System>, actions: seq<Action>, maxPending: nat, i: nat)
    requires Run(trace, actions, maxPending) && i < |trace|
    ensures var s := trace[i];
            |s.places| + (if s.worker.Counted? then 1 else 0)
            == s.dropped + s.successful + s.pending + |Unslotted(s.producers)|
  {
    var s := trace[i];
    RunKeepsInv(trace, actions, maxPending, i);
    CensusIsPartition(s.places);
    SplitProducers(s.producers);
  }

  lemma SplitProducers(producers: map<nat, Producer>)
    ensures |producers.Keys| == |SlotHolders(producers)| + |Unslotted(producers)|
  {
    assert producers.Keys == SlotHolders(producers) + Unslotted(producers);
    assert SlotHolders(producers) !! Unslotted(producers);
  }

  predicate Final(p: Place) {
    p.CountedDropped? || p.CountedSuccessful?
  }

  lemma StepKeepsFinal(s: System, a: Action, id: nat)
    requires Inv(s) && Enabled(s, a)
    requires id < |s.places| && Final(s.places[id])
    ensures id < |Next(s, a).places| && Next(s, a).places[id] == s.places[id]
  {
    hide CountsTrue, ReachedInOrder, SuccessesReached;
    if a.Receive? && s.channel != [] {
      assert s.channel[0] == s.sent[s.received];
    }
  }

  /** A message is counted at most once in a run: a counted place never changes again. */
  lemma {:induction false} CountedOnce(trace: seq<System>, actions: seq<Action>, maxPending: nat, i: nat, j: nat, id: nat)
    requires Run(trace, actions, maxPending) && i <= j < |trace|
    requires id < |trace[i].places| && Final(trace[i].places[id])
    ensures id < |trace[j].places| && trace[j].places[id] == trace[i].places[id]
    decreases j
  {
    if i < j {
      hide Inv, Next;
      CountedOnce(trace, actions, maxPending, i, j - 1, id);
      RunKeepsInv(trace, actions, maxPending, j - 1);
      assert Follows(trace[j - 1], actions[j - 1], trace[j]);
      StepKeepsFinal(trace[j - 1], actions[j - 1], id);
    }
  }

  lemma CountersAreCensus(trace: seq<System>, actions: seq<Action>, maxPending: nat, i: nat)
    requires Run(trace, actions, maxPending) && i < |trace|
    ensures trace[i].dropped == Census(trace[i].places, CountedDropped)
    ensures trace[i].successful == Census(trace[i].places, CountedSuccessful)
  {
    RunKeepsInv(trace, actions, maxPending, i);
  }

  predicate Drained(s: System) {
    s.worker.Exited? && s.producers == map[]
  }

  /** Once the worker has exited and every producer has returned, every offer was counted exactly once. */
  lemma DrainedCountsEveryOffer(trace: seq<System>, actions: seq<Action>, maxPending: nat, i: nat)
    requires Run(trace, actions, maxPending) && i < |trace|
    requires Drained(trace[i])
    ensures trace[i].pending == 0 && trace[i].channel == [] && trace[i].stopping
    ensures |trace[i].places| == trace[i].dropped + trace[i].successful
    ensures forall id :: 0 <= id < |trace[i].places| ==> Final(trace[i].places[id])
  {
    var s := trace[i];
    RunKeepsInv(trace, actions, maxPending, i);
    CensusIsPartition(s.places);
    assert SlotHolders(s.producers) == {};
    forall id | 0 <= id < |s.places| ensures Final(s.places[id]) {
      assert s.places[id] in multiset(s.places);
      assert Census(s.places, s.places[id]) > 0;
    }
  }

  /** What the sink was given, in order. */
  function Delivered(s: System): seq<Message>
    requires forall k :: 0 <= k < |s.reached| ==> 0 <= s.reached[k] < |s.sent|
  {
    seq(|s.reached|, k requires 0 <= k < |s.reached| => s.sent[s.reached[k]])
  }

  /** The sink gets messages in the order of their `try_send`s, none twice, and every counted success. */
  lemma DeliveredInSendOrder(trace: seq<System>, actions: seq<Action>, maxPending: nat, i: nat)
    requires Run(trace, actions, maxPending) && i < |trace|
    ensures var s := trace[i];
            && (forall k :: 0 <= k < |s.reached| ==> 0 <= s.reached[k] < |s.sent|)
            && (forall k, l :: 0 <= k < l < |s.reached| ==> s.reached[k] < s.reached[l])
            && (forall k, l :: 0 <= k < l < |Delivered(s)| ==> Delivered(s)[k].id != Delivered(s)[l].id)
            && (forall m :: m in s.sent && At(s.places, m, CountedSuccessful) ==> m in Delivered(s))
  {
    var s := trace[i];
    RunKeepsInv(trace, actions, maxPending, i);
    forall m | m in s.sent && At(s.places, m, CountedSuccessful) ensures m in Delivered(s) {
      var p :| 0 <= p < |s.sent| && s.sent[p] == m;
      var k :| 0 <= k < |s.reached| && s.reached[k] == p;
      assert Delivered(s)[k] == m;
    }
  }

  /** Both logs only grow, so the order at the end is the order in which things happened. */
  lemma {:induction false} LogsGrow(trace: seq<System>, actions: seq<Action>, maxPending: nat, i: nat, j: nat)
    requires Run(trace, actions, maxPending) && i <= j < |trace|
    ensures trace[i].sent <= trace[j].sent && trace[i].reached <= trace[j].reached
    decreases j
  {
    if i < j {
      LogsGrow(trace, actions, maxPending, i, j - 1);
      assert Follows(trace[j - 1], actions[j - 1], trace[j]);
    }
  }

  // ---- What `stop` does to the messages it finds ----

  /** Past its stopping check, not yet handed over. */
  predicate PastCheck(w: Worker) {
    w.Cleared? || w.Ready?
  }

  /** How the sink's log may have grown since the flag was found set in `s`. */
  predicate AtMostOneMore(s: System, t: System) {
    || (t.reached == s.reached && (PastCheck(t.worker) ==> PastCheck(s.worker) && t.received == s.received))
    || (t.reached == s.reached + [s.received - 1] && PastCheck(s.worker) && !PastCheck(t.worker))
  }

  lemma StopStep(s: System, t: System, a: Action)
    requires s.stopping && t.stopping && Enabled(t, a) && AtMostOneMore(s, t)
    ensures AtMostOneMore(s, Next(t, a)) && Next(t, a).stopping && |Next(t, a).places| == |t.places|
  {
  }

  /** From the moment `stop` sets its flag no new message is taken in, and none reaches the sink but the
      one, if any, whose stopping check the worker had already passed. */
  lemma {:induction false} StopSilencesTheSink(trace: seq<System>, actions: seq<Action>, maxPending: nat, i: nat, j: nat)
    requires Run(trace, actions, maxPending) && i <= j < |trace| && trace[i].stopping
    ensures trace[j].stopping && |trace[j].places| == |trace[i].places| && AtMostOneMore(trace[i], trace[j])
    decreases j
  {
    if i < j {
      StopSilencesTheSink(trace, actions, maxPending, i, j - 1);
      assert Follows(trace[j - 1], actions[j - 1], trace[j]);
      hide Run, Enabled, Next, AtMostOneMore;
      StopStep(trace[i], trace[j - 1], actions[j - 1]);
    }
  }

  /** Positions in `sent` that had not passed their stopping check in `s`: queued, just received, or not
      even sent. */
  predicate Unchecked(s: System, p: nat) {
    p >= s.received || (p + 1 == s.received && s.worker.Holding?)
  }

  /** Once drained, every message that was not handed over is counted dropped, and so is everything that
      had not passed its stopping check when the flag was set. */
  lemma StopDropsTheQueue(trace: seq<System>, actions: seq<Action>, maxPending: nat, i: nat, j: nat, p: nat)
    requires Run(trace, actions, maxPending) && i <= j < |trace| && trace[i].stopping && Drained(trace[j])
    requires p < |trace[j].sent|
    ensures p !in trace[j].reached ==> At(trace[j].places, trace[j].sent[p], CountedDropped)
    ensures Unchecked(trace[i], p) ==> p !in trace[j].reached
  {
    DrainedCountsEveryOffer(trace, actions, maxPending, j);
    StopSilencesTheSink(trace, actions, maxPending, i, j);
    RunKeepsInv(trace, actions, maxPending, i);
    RunKeepsInv(trace, actions, maxPending, j);
    hide Run, CountsTrue, ProducersPlaced, WorkerPlaced;
    assert trace[j].sent[p].id < |trace[j].places|;
  }

  /** What the comment in `stop` promises: everything not yet checked when the flag was set is still
      handed to the sink. */
  predicate QueueReachesSink(s: System, t: System) {
    forall p :: 0 <= p < |t.sent| && Unchecked(s, p) ==> p in t.reached
  }

  /** It does so exactly when there was nothing: no message queued or just received, and none sent by a
      producer that had passed its checks before the flag. */
  lemma PromiseHoldsExactly(trace: seq<System>, actions: seq<Action>, maxPending: nat, i: nat, j: nat)
    requires Run(trace, actions, maxPending) && i <= j < |trace| && trace[i].stopping && Drained(trace[j])
    ensures QueueReachesSink(trace[i], trace[j]) <==> |trace[j].sent| == trace[i].received && !trace[i].worker.Holding?
    ensures trace[i].producers == map[] ==>
              (QueueReachesSink(trace[i], trace[j]) <==> trace[i].channel == [] && !trace[i].worker.Holding?)
  {
    var s, t := trace[i], trace[j];
    RunKeepsInv(trace, actions, maxPending, i);
    LogsGrow(trace, actions, maxPending, i, j);
    forall p | 0 <= p < |t.sent| && Unchecked(s, p) ensures p !in t.reached {
      StopDropsTheQueue(trace, actions, maxPending, i, j, p);
    }
    if s.producers == map[] {
      NothingMoreIsSent(trace, actions, maxPending, i, j);
    }
    hide Run, CountsTrue, ProducersPlaced, ReachedInOrder, SuccessesReached;
    if s.worker.Holding? {
      assert Unchecked(s, s.received - 1);
    } else if |t.sent| > s.received {
      assert Unchecked(s, s.received);
    }
  }

  lemma {:induction false} NothingMoreIsSent(trace: seq<System>, actions: seq<Action>, maxPending: nat, i: nat, j: nat)
    requires Run(trace, actions, maxPending) && i <= j < |trace| && trace[i].stopping && trace[i].producers == map[]
    ensures trace[j].stopping && trace[j].producers == map[] && trace[j].sent == trace[i].sent
    decreases j
  {
    if i < j {
      NothingMoreIsSent(trace, actions, maxPending, i, j - 1);
      assert Follows(trace[j - 1], actions[j - 1], trace[j]);
    }
  }

  // ---- The drain comes to an end ----

  function ProducerSteps(p: Producer): nat {
    match p
    case Passed(_) => 11
    case Online(_) => 10
    case Reserved(_) => 9
    case HasSender(_) => 8
    case Returning(_) => 2
    case Dropping(_) => 1
  }

  function WorkerSteps(w: Worker): nat {
    match w
    case Holding(_) => 7
    case Cleared(_) => 6
    case Ready(_) => 5
    case Publishing(_) => 4
    case Succeeded(_) => 3
    case Failed(_) => 3
    case Counted(_) => 2
    case Waiting => 1
    case Exited => 0
  }

  ghost function Load(producers: map<nat, Producer>): nat {
    if producers == map[] then 0
    else
      var t :| t in producers;
      ProducerSteps(producers[t]) + Load(producers - {t})
  }

  /** An upper bound on the steps left. */
  ghost function StepsLeft(s: System): nat {
    Load(s.producers) + 7 * |s.channel| + WorkerSteps(s.worker)
  }

  lemma {:induction false} LoadWithout(producers: map<nat, Producer>, t: nat)
    requires t in producers
    ensures Load(producers) == ProducerSteps(producers[t]) + Load(producers - {t})
    decreases |producers|
  {
    var u :| u in producers && Load(producers) == ProducerSteps(producers[u]) + Load(producers - {u});
    if u != t {
      LoadWithout(producers - {u}, t);
      LoadWithout(producers - {t}, u);
      assert producers - {u} - {t} == producers - {t} - {u};
    }
  }

  lemma LoadUpdate(producers: map<nat, Producer>, t: nat, p: Producer)
    requires t in producers
    ensures Load(producers[t := p]) == Load(producers) - ProducerSteps(producers[t]) + ProducerSteps(p)
  {
    LoadWithout(producers, t);
    LoadWithout(producers[t := p], t);
    assert producers[t := p] - {t} == producers - {t};
  }

  predicate OfStop(a: Action) {
    a.SetStopping? || a.TakeSender?
  }

  predicate OfProducer(a: Action) {
    a.CheckConnected? || a.Reserve? || a.LookupSender? || a.TrySend? || a.GiveBack? || a.CountDrop?
  }

  lemma ProducerShrinks(s: System, a: Action)
    requires Enabled(s, a) && OfProducer(a)
    ensures StepsLeft(Next(s, a)) < StepsLeft(s)
  {
    hide Load;
    var after := Next(s, a).producers;
    if a.t in after {
      assert after == s.producers[a.t := after[a.t]] && ProducerSteps(after[a.t]) < ProducerSteps(s.producers[a.t]);
      LoadUpdate(s.producers, a.t, after[a.t]);
    } else {
      assert after == s.producers - {a.t};
      LoadWithout(s.producers, a.t);
    }
  }

  /** Every step of a producer on its way or of the worker brings the end nearer; the steps of `stop` change
      nothing there. */
  lemma StepShrinks(s: System, a: Action)
    requires Enabled(s, a) && !a.Offer?
    ensures if OfStop(a) then StepsLeft(Next(s, a)) == StepsLeft(s) else StepsLeft(Next(s, a)) < StepsLeft(s)
  {
    hide Load;
    if OfProducer(a) {
      ProducerShrinks(s, a);
    }
  }

  /** How many steps from `i` to `j` are not `stop`'s own. */
  function Work(actions: seq<Action>, i: nat, j: nat): nat
    requires i <= j <= |actions|
  {
    if i == j then 0 else Work(actions, i, j - 1) + if OfStop(actions[j - 1]) then 0 else 1
  }

  lemma StoppingStays(s: System, a: Action)
    requires s.stopping && Enabled(s, a)
    ensures Next(s, a).stopping && !a.Offer?
  {
  }

  /** From the moment the flag is set the work left is bounded by what was under way then. */
  lemma {:induction false} DrainIsBounded(trace: seq<System>, actions: seq<Action>, maxPending: nat, i: nat, j: nat)
    requires Run(trace, actions, maxPending) && i <= j < |trace| && trace[i].stopping
    ensures trace[j].stopping && Work(actions, i, j) + StepsLeft(trace[j]) <= StepsLeft(trace[i])
    decreases j
  {
    if i < j {
      hide StepsLeft, Enabled, Next;
      DrainIsBounded(trace, actions, maxPending, i, j - 1);
      assert Follows(trace[j - 1], actions[j - 1], trace[j]);
      hide Run;
      StoppingStays(trace[j - 1], actions[j - 1]);
      StepShrinks(trace[j - 1], actions[j - 1]);
    }
  }

  /** And with the sender gone it never gets stuck: until all is drained some step of work can be taken. */
  lemma DrainNeverStuck(s: System)
    requires Inv(s) && !s.senderOpen && !Drained(s)
    ensures exists a :: Enabled(s, a) && !a.Offer? && !OfStop(a)
  {
    hide CountsTrue, SentPlaced, ProducersPlaced;
    if t :| t in s.producers {
      var a := ProducerNext(t, s.producers[t]);
      assert Enabled(s, a);
    } else {
      var a := match s.worker
        case Waiting => Receive
        case Holding(_) => CheckStopping
        case Cleared(_) => CheckSink(true)
        case Ready(_) => HandOver
        case Publishing(_) => FinishPublish(true)
        case Counted(_) => ReleaseSlot
        case _ => CountResult;
      assert Enabled(s, a);
    }
  }

  function ProducerNext(t: nat, p: Producer): Action {
    match p
    case Passed(_) => CheckConnected(t, true)
    case Online(_) => Reserve(t)
    case Reserved(_) => LookupSender(t)
    case HasSender(_) => TrySend(t)
    case Returning(_) => GiveBack(t)
    case Dropping(_) => CountDrop(t)
  }

  /** So a run after `stop` that can work no further has drained, whatever the order and the outcomes,
      and has counted every offer exactly once. */
  lemma StopDrains(trace: seq<System>, actions: seq<Action>, maxPending: nat)
    requires Run(trace, actions, maxPending) && !trace[|trace| - 1].senderOpen
    requires forall a :: Enabled(trace[|trace| - 1], a) && !a.Offer? ==> OfStop(a)
    ensures var s := trace[|trace| - 1];
            Drained(s) && s.pending == 0 && s.channel == [] && |s.places| == s.dropped + s.successful
  {
    var s := trace[|trace| - 1];
    RunKeepsInv(trace, actions, maxPending, |trace| - 1);
    hide Run, Inv;
    if !Drained(s) {
      DrainNeverStuck(s);
    }
    DrainedCountsEveryOffer(trace, actions, maxPending, |trace| - 1);
  }

  // ---- A run that loses a queued message ----

  predicate Reaches(trace: seq<System>, actions: seq<Action>, maxPending: nat, s: System) {
    Run(trace, actions, maxPending) && trace[|trace| - 1] == s
  }

  lemma OneMore(trace: seq<System>, actions: seq<Action>, maxPending: nat, s: System, a: Action)
    returns (trace': seq<System>, actions': seq<Action>)
    requires Reaches(trace, actions, maxPending, s) && Enabled(s, a)
    ensures Reaches(trace', actions', maxPending, Next(s, a)) && trace' == trace + [Next(s, a)]
  {
    trace', actions' := trace + [Next(s, a)], actions + [a];
    forall i | 0 <= i < |actions'| ensures Follows(trace'[i], actions'[i], trace'[i + 1]) {
      if i < |actions| { assert Follows(trace[i], actions[i], trace[i + 1]); }
    }
  }

  function OneQueued(maxPending: nat, m: Message): System {
    System(maxPending, 1, 0, 0, false, true, [m], map[], Waiting, [InChannel], [m], 0, [])
  }

  function OneLost(maxPending: nat, m: Message): System {
    System(maxPending, 0, 1, 0, true, false, [], map[], Exited, [CountedDropped], [m], 1, [])
  }

  lemma QueueOne(maxPending: nat, m: Message) returns (trace: seq<System>, actions: seq<Action>)
    requires maxPending > 0 && m.id == 0
    ensures Reaches(trace, actions, maxPending, OneQueued(maxPending, m))
  {
    trace, actions := [Init(maxPending)], [];
    var s0 := Init(maxPending);
    assert Reaches(trace, actions, maxPending, s0);
    hide Reaches;
    var s1 := System(maxPending, 0, 0, 0, false, true, [], map[0 := Passed(m)], Waiting, [AtProducer], [], 0, []);
    trace, actions := OneMore(trace, actions, maxPending, s0, Offer(0, m.topic, m.payload, m.retained));
    assert Next(s0, Offer(0, m.topic, m.payload, m.retained)) == s1;
    var s2 := s1.(producers := map[0 := Online(m)]);
    trace, actions := OneMore(trace, actions, maxPending, s1, CheckConnected(0, true));
    assert Next(s1, CheckConnected(0, true)) == s2;
    var s3 := s1.(pending := 1, producers := map[0 := Reserved(m)]);
    assert Next(s2, Reserve(0)) == s3;
    trace, actions := OneMore(trace, actions, maxPending, s2, Reserve(0));
    trace, actions := SendOne(trace, actions, maxPending, m);
  }

  lemma SendOne(trace0: seq<System>, actions0: seq<Action>, maxPending: nat, m: Message)
    returns (trace: seq<System>, actions: seq<Action>)
    requires maxPending > 0 && m.id == 0
    requires Reaches(trace0, actions0, maxPending,
                     System(maxPending, 1, 0, 0, false, true, [], map[0 := Reserved(m)], Waiting, [AtProducer], [], 0, []))
    ensures Reaches(trace, actions, maxPending, OneQueued(maxPending, m))
  {
    hide Reaches;
    trace, actions := trace0, actions0;
    var s3 := System(maxPending, 1, 0, 0, false, true, [], map[0 := Reserved(m)], Waiting, [AtProducer], [], 0, []);
    var s4 := s3.(producers := map[0 := HasSender(m)]);
    trace, actions := OneMore(trace, actions, maxPending, s3, LookupSender(0));
    assert Next(s3, LookupSender(0)) == s4;
    trace, actions := OneMore(trace, actions, maxPending, s4, TrySend(0));
    assert Next(s4, TrySend(0)) == OneQueued(maxPending, m);
  }

  lemma LoseOne(trace: seq<System>, actions: seq<Action>, maxPending: nat, m: Message)
    returns (trace': seq<System>, actions': seq<Action>)
    requires m.id == 0 && Reaches(trace, actions, maxPending, OneQueued(maxPending, m))
    ensures Reaches(trace', actions', maxPending, OneLost(maxPending, m)) && trace <= trace'
  {
    hide Reaches;
    var s0 := OneQueued(maxPending, m);
    trace', actions' := OneMore(trace, actions, maxPending, s0, SetStopping);
    var s1 := s0.(stopping := true);
    trace', actions' := OneMore(trace', actions', maxPending, s1, TakeSender);
    var s2 := s1.(senderOpen := false);
    trace', actions' := OneMore(trace', actions', maxPending, s2, Receive);
    var s3 := s2.(channel := [], worker := Holding(m), received := 1, places := [AtWorker]);
    assert Next(s2, Receive) == s3;
    trace', actions' := OneMore(trace', actions', maxPending, s3, CheckStopping);
    var s4 := s3.(worker := Failed(m));
    trace', actions' := OneMore(trace', actions', maxPending, s4, CountResult);
    var s5 := s3.(worker := Counted(m), dropped := 1, places := [CountedDropped]);
    assert Next(s4, CountResult) == s5;
    trace', actions' := OneMore(trace', actions', maxPending, s5, ReleaseSlot);
    var s6 := s5.(worker := Waiting, pending := 0);
    trace', actions' := OneMore(trace', actions', maxPending, s6, Receive);
    assert Next(s6, Receive) == OneLost(maxPending, m);
  }

  /** For every limit there is a run in which the sink is connected, a message is queued before `stop`,
      and `stop` drains it as dropped without the sink ever seeing it. */
  lemma QueuedMessageIsLost(maxPending: nat, m: Message)
    requires maxPending > 0 && m.id == 0
    ensures exists trace, actions, before ::
              && Reaches(trace, actions, maxPending, OneLost(maxPending, m)) && before in trace && before == OneQueued(maxPending, m)
              && !before.stopping && before.channel == [m]
    ensures var lost := OneLost(maxPending, m); Drained(lost) && lost.reached == [] && lost.dropped == 1 && lost.successful == 0
  {
    var trace, actions := QueueOne(maxPending, m);
    var trace', actions' := LoseOne(trace, actions, maxPending, m);
    assert trace'[|trace| - 1] == OneQueued(maxPending, m);
    assert OneQueued(maxPending, m) in trace';
  }
}
