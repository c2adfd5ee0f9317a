/** What becomes of an offered message, said of the steps taken on it. */
module BridgeOutcomes {
  import opened Common
  import opened Forwarding

  // ---- Contents ----

  /** At `p` the message was offered. */
  predicate OfferedAt(trace: seq<System>, actions: seq<Action>, p: int, m: Message) {
    && 0 <= p < |actions| && |trace| == |actions| + 1
    && actions[p].Offer? && m == Message(|trace[p].places|, actions[p].topic, actions[p].payload, actions[p].retained)
  }

  predicate AtProducerNow(s: System, t: nat, m: Message) {
    t in s.producers && s.producers[t].m == m
  }

  /** On its way through the bridge, or through it. */
  predicate Carried(s: System, m: Message) {
    || (exists t :: t in s.producers && AtProducerNow(s, t, m))
    || m in s.channel || m in s.sent
    || (!s.worker.Waiting? && !s.worker.Exited? && s.worker.m == m)
  }

  lemma ProducerBefore(s: System, a: Action, t: nat, m: Message)
    requires Enabled(s, a) && AtProducerNow(Next(s, a), t, m)
    ensures AtProducerNow(s, t, m) || (a.Offer? && m == Message(|s.places|, a.topic, a.payload, a.retained))
  {
    hide Move, TrySendFails, AnySender;
  }

  lemma QueueBefore(s: System, a: Action, m: Message)
    requires Enabled(s, a) && (m in Next(s, a).channel || m in Next(s, a).sent)
    ensures m in s.channel || m in s.sent || (a.TrySend? && AtProducerNow(s, a.t, m))
  {
    hide Move, TrySendFails, AnySender;
  }

  lemma WorkerBefore(s: System, a: Action, m: Message)
    requires Enabled(s, a) && !Next(s, a).worker.Waiting? && !Next(s, a).worker.Exited? && Next(s, a).worker.m == m
    ensures m in s.channel || (!s.worker.Waiting? && !s.worker.Exited? && s.worker.m == m)
  {
    hide Move, TrySendFails, AnySender;
  }

  lemma CarriedBefore(s: System, a: Action, m: Message)
    requires Enabled(s, a) && Carried(Next(s, a), m)
    ensures Carried(s, m) || (a.Offer? && m == Message(|s.places|, a.topic, a.payload, a.retained))
  {
    hide Next, Enabled, AtProducerNow;
    var s' := Next(s, a);
    if m in s'.channel || m in s'.sent {
      QueueBefore(s, a, m);
      if a.TrySend? && AtProducerNow(s, a.t, m) { AtOne(s, a.t, m); }
    } else if t :| t in s'.producers && AtProducerNow(s', t, m) {
      ProducerBefore(s, a, t, m);
      if AtProducerNow(s, t, m) { AtOne(s, t, m); }
    } else {
      WorkerBefore(s, a, m);
    }
  }

  lemma AtOne(s: System, t: nat, m: Message)
    requires AtProducerNow(s, t, m)
    ensures t in s.producers
  {
  }

  /** Whatever the bridge carries, hands to the sink or has handed to it is an offer, its topic, payload and retain flag as
      they were offered. */
  lemma {:induction false} ContentsAsOffered(trace: seq<System>, actions: seq<Action>, maxPending: nat, i: nat, m: Message)
    requires Run(trace, actions, maxPending) && i < |trace| && Carried(trace[i], m)
    ensures exists p :: p < i && OfferedAt(trace, actions, p, m)
  {
    hide Inv, Next, Carried;
    if i == 0 {
      NothingCarried(trace[0], maxPending, m);
    } else {
      assert Follows(trace[i - 1], actions[i - 1], trace[i]);
      CarriedBefore(trace[i - 1], actions[i - 1], m);
      if Carried(trace[i - 1], m) {
        ContentsAsOffered(trace, actions, maxPending, i - 1, m);
      } else {
        assert OfferedAt(trace, actions, i - 1, m);
      }
    }
  }

  lemma NothingCarried(s: System, maxPending: nat, m: Message)
    requires s == Init(maxPending)
    ensures !Carried(s, m)
  {
  }

  // ---- Outcomes ----

  predicate AtProducerOf(s: System, t: nat, id: nat) {
    t in s.producers && s.producers[t].m.id == id
  }

  predicate AtWorkerNow(s: System, id: nat) {
    !s.worker.Waiting? && !s.worker.Exited? && s.worker.m.id == id
  }

  /** A reason to drop a message: the sink is not connected when the message is offered or forwarded, as many messages are
      pending as may be, the bridge is stopping, or the sink does not take it. */
  predicate TurnsAway(s: System, a: Action, id: nat) {
    || (a.CheckConnected? && !a.connected && AtProducerOf(s, a.t, id))
    || (a.Reserve? && s.pending >= s.maxPending && AtProducerOf(s, a.t, id))
    || (a.LookupSender? && !s.senderOpen && AtProducerOf(s, a.t, id))
    || (a.CheckStopping? && s.stopping && AtWorkerNow(s, id))
    || (a.CheckSink? && !a.connected && AtWorkerNow(s, id))
    || (a.FinishPublish? && !a.ok && AtWorkerNow(s, id))
  }

  /** The sink takes the message. */
  predicate Delivers(s: System, a: Action, id: nat) {
    a.FinishPublish? && a.ok && AtWorkerNow(s, id)
  }

  predicate DoomedAt(s: System, t: nat, id: nat) {
    AtProducerOf(s, t, id) && (s.producers[t].Returning? || s.producers[t].Dropping?)
  }

  predicate Doomed(s: System, id: nat) {
    || (exists t :: t in s.producers && DoomedAt(s, t, id))
    || (s.worker.Failed? && s.worker.m.id == id)
    || (id < |s.places| && s.places[id] == CountedDropped)
  }

  predicate Won(s: System, id: nat) {
    || (s.worker.Succeeded? && s.worker.m.id == id)
    || (id < |s.places| && s.places[id] == CountedSuccessful)
  }

  lemma ProducerDoomed(s: System, a: Action, t: nat, id: nat)
    requires Enabled(s, a) && (a.TrySend? ==> !TrySendFails(s)) && DoomedAt(Next(s, a), t, id)
    ensures DoomedAt(s, t, id) || TurnsAway(s, a, id)
  {
    hide TrySendFails, Move, AnySender;
  }

  lemma WorkerDoomed(s: System, a: Action, id: nat)
    requires Enabled(s, a) && Next(s, a).worker.Failed? && Next(s, a).worker.m.id == id
    ensures (s.worker.Failed? && s.worker.m.id == id) || TurnsAway(s, a, id)
  {
    hide TrySendFails, Move, AnySender;
  }

  lemma PlaceDoomed(s: System, a: Action, id: nat)
    requires Enabled(s, a) && id < |Next(s, a).places| && Next(s, a).places[id] == CountedDropped
    ensures || (id < |s.places| && s.places[id] == CountedDropped)
            || (a.CountDrop? && DoomedAt(s, a.t, id))
            || (s.worker.Failed? && s.worker.m.id == id)
  {
    hide TrySendFails, AnySender;
  }

  lemma DoomedBefore(s: System, a: Action, id: nat)
    requires Inv(s) && Enabled(s, a) && Doomed(Next(s, a), id)
    ensures Doomed(s, id) || TurnsAway(s, a, id)
  {
    hide Inv, Next, DoomedAt, TurnsAway, TrySendFails, AnySender;
    var s' := Next(s, a);
    if a.TrySend? { RoomForHolder(s, a.t); }
    if t :| t in s'.producers && DoomedAt(s', t, id) {
      ProducerDoomed(s, a, t, id);
      if DoomedAt(s, t, id) { DoomedIsThere(s, t, id); }
    } else if s'.worker.Failed? && s'.worker.m.id == id {
      WorkerDoomed(s, a, id);
    } else {
      PlaceDoomed(s, a, id);
      if a.CountDrop? && DoomedAt(s, a.t, id) { DoomedIsThere(s, a.t, id); }
    }
  }

  lemma DoomedIsThere(s: System, t: nat, id: nat)
    requires DoomedAt(s, t, id)
    ensures t in s.producers
  {
  }

  lemma WonBefore(s: System, a: Action, id: nat)
    requires Enabled(s, a) && Won(Next(s, a), id)
    ensures Won(s, id) || Delivers(s, a, id)
  {
    hide TrySendFails, AnySender;
  }

  /** A producer with a sender holds a slot, so the channel has room for its message. */
  lemma RoomForHolder(s: System, t: nat)
    requires Inv(s) && t in s.producers && s.producers[t].HasSender?
    ensures !TrySendFails(s)
  {
    assert t in SlotHolders(s.producers);
  }

  predicate WasTurnedAway(trace: seq<System>, actions: seq<Action>, i: nat, id: nat)
    requires i <= |actions| < |trace|
  {
    exists p :: 0 <= p < i && TurnsAway(trace[p], actions[p], id)
  }

  predicate WasDelivered(trace: seq<System>, actions: seq<Action>, i: nat, id: nat)
    requires i <= |actions| < |trace|
  {
    exists p :: 0 <= p < i && Delivers(trace[p], actions[p], id)
  }

  lemma {:induction false} HistoryDecides(trace: seq<System>, actions: seq<Action>, maxPending: nat, i: nat, id: nat)
    requires Run(trace, actions, maxPending) && i < |trace|
    ensures Doomed(trace[i], id) ==> WasTurnedAway(trace, actions, i, id)
    ensures Won(trace[i], id) ==> WasDelivered(trace, actions, i, id)
  {
    hide Inv, Next, Doomed, Won, TurnsAway, Delivers;
    if i == 0 {
      NothingDecided(trace[0], maxPending, id);
    } else {
      var s, a := trace[i - 1], actions[i - 1];
      RunKeepsInv(trace, actions, maxPending, i - 1);
      assert Follows(s, a, trace[i]);
      HistoryDecides(trace, actions, maxPending, i - 1, id);
      if Doomed(trace[i], id) { DoomedBefore(s, a, id); }
      if Won(trace[i], id) { WonBefore(s, a, id); }
    }
  }

  lemma NothingDecided(s: System, maxPending: nat, id: nat)
    requires s == Init(maxPending)
    ensures !Doomed(s, id) && !Won(s, id)
  {
  }

  /** In every run a message is counted as dropped only if one of the reasons to drop it occurred, and as successful only
      if the sink took it. */
  lemma OutcomesAreJustified(trace: seq<System>, actions: seq<Action>, maxPending: nat, i: nat, id: nat)
    requires Run(trace, actions, maxPending) && i < |trace| && id < |trace[i].places|
    ensures trace[i].places[id] == CountedDropped ==> WasTurnedAway(trace, actions, i, id)
    ensures trace[i].places[id] == CountedSuccessful ==> WasDelivered(trace, actions, i, id)
  {
    hide Inv, Next, TurnsAway, Delivers;
    HistoryDecides(trace, actions, maxPending, i, id);
  }
}
