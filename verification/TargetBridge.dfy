/**
 The bridge as its own code runs it: shared counters updated in place by the
 producer path, the worker and `stop`. Each primitive performs one action of the
 machine in Forwarding; the ghost field is that machine.
 */
module TargetBridges {
  import opened Common
  import opened Forwarding
  import opened Topics
  import opened ObserverErrors
  import opened Policy
  import opened PolicyLaws
  import opened TextLaws
  import opened PublishRules

  /** Only the observer's own status, packets and neighbors go to the target. */
  predicate ShouldForward(publicKey: string, topic: string) {
    var parts := Split(topic, '/');
    && |parts| == 4 && parts[0] == "meshcore"
    && EqIgnoreCase(parts[2], publicKey)
    && Lower(parts[3]) in {"status", "packets", "neighbors"}
  }

  /** A topic of four levels under the observer's own key, in any case, that ends in one of three words in any case. */
  ghost predicate IsTargetTopic(publicKey: string, topic: string) {
    exists iata, key, word ::
      && '/' !in iata && '/' !in key && '/' !in word && SameText(key, publicKey)
      && (SameText(word, "status") || SameText(word, "packets") || SameText(word, "neighbors"))
      && topic == "meshcore/" + iata + "/" + key + "/" + word
  }

  lemma TargetTopicsExactly(publicKey: string, topic: string)
    ensures ShouldForward(publicKey, topic) <==> IsTargetTopic(publicKey, topic)
  {
    hide Split, Join, SameText, Lower, EqIgnoreCase;
    var parts := Split(topic, '/');
    if ShouldForward(publicKey, topic) {
      SplitIsFree(topic, '/');
      JoinOfSplit(topic, '/');
      JoinOfFour(parts[0], parts[1], parts[2], parts[3..], '/');
      assert parts == [parts[0], parts[1], parts[2]] + parts[3..] && parts[3..] == [parts[3]];
      LastLevel(parts[3]);
      CaseDecides(parts[2], publicKey);
      WordSpells(parts[3]);
      assert topic == "meshcore/" + parts[1] + "/" + parts[2] + "/" + parts[3];
    }
    if IsTargetTopic(publicKey, topic) {
      var iata, key, word :|
        && '/' !in iata && '/' !in key && '/' !in word && SameText(key, publicKey)
        && (SameText(word, "status") || SameText(word, "packets") || SameText(word, "neighbors"))
        && topic == "meshcore/" + iata + "/" + key + "/" + word;
      SplitOfFour(iata, key, word);
      SplitOfFree(word, '/');
      CaseDecides(key, publicKey);
      WordSpells(word);
    }
  }

  lemma LastLevel(word: string)
    ensures Join([word], '/') == word
  {
  }

  lemma WordSpells(word: string)
    ensures Lower(word) in {"status", "packets", "neighbors"}
       <==> SameText(word, "status") || SameText(word, "packets") || SameText(word, "neighbors")
  {
    hide Lower, SameText;
    LowerIs(word, "status");
    LowerIs(word, "packets");
    LowerIs(word, "neighbors");
  }

  /** Exactly the accepted publishes on the three telemetry subtopics, in any case, are forwarded. */
  lemma ForwardedPublishes(
    config: Config, publicKey: string, owns: bool, topic: string, payload: seq<byte>, retain: bool,
    origin: Option<ObserverErrorCode>)
    requires AuthorizePublish(config, Publisher(publicKey), owns, topic, payload, retain, origin).Allowed?
    ensures var out := AuthorizePublish(config, Publisher(publicKey), owns, topic, payload, retain, origin).publish.topic;
            ShouldForward(publicKey, out) <==> Lower(Parse(topic).value.subtopic) in {"status", "packets", "neighbors"}
  {
    hide Split, Parse, AuthorizeParsed, Normalized;
    AcceptedShape(config, publicKey, owns, Parse(topic).value, payload, retain, origin);
    CanonicalRoundTrip(topic);
    assert Lower(Upper(publicKey)) == Lower(publicKey);
    SubtopicShape(topic);
    assert Lower(Parse(topic).value.subtopic) in {"status", "packets", "neighbors"} ==> '/' !in Lower(Parse(topic).value.subtopic);
  }

  lemma SubtopicShape(topic: string)
    requires Parse(topic).Some?
    ensures var parts, subtopic := Split(topic, '/'), Parse(topic).value.subtopic;
            && |parts| >= 4
            && (|parts| == 4 ==> subtopic == parts[3])
            && (|parts| > 4 ==> '/' in Lower(subtopic))
  {
    hide Split;
    var parts := Split(topic, '/');
    if |parts| > 4 {
      var subtopic := Parse(topic).value.subtopic;
      assert subtopic[|parts[3]|] == '/';
      assert Lower(subtopic)[|parts[3]|] == '/';
    }
  }

  lemma HolderCounts(s: System, t: nat)
    requires Inv(s) && t in s.producers && HoldsSlot(s.producers[t])
    ensures s.pending > 0
    ensures s.producers[t].HasSender? ==> !TrySendFails(s)
  {
    assert t in SlotHolders(s.producers);
  }

  lemma WorkerCounts(s: System)
    requires Inv(s) && s.worker.Counted?
    ensures s.pending > 0
  {
  }

  lemma QueueIsRest(s: System)
    requires Inv(s)
    ensures s.received + |s.channel| == |s.sent|
  {
  }

  lemma OpenUntilStop(s: System)
    requires Inv(s) && !s.stopping
    ensures s.senderOpen
  {
  }

  class TargetBridge {
    const maxPending: nat
    var pending: nat
    var dropped: nat
    var successful: nat
    var stopping: bool
    var senderOpen: bool
    var channel: seq<Message>
    var offers: nat           // numbers the messages; the original needs no such field
    ghost var machine: System

    ghost predicate Tied()
      reads this
    {
      && machine.maxPending == maxPending
      && machine.pending == pending && machine.dropped == dropped && machine.successful == successful
      && |machine.places| == offers
      && machine.stopping == stopping && machine.senderOpen == senderOpen && machine.channel == channel
    }

    ghost predicate Valid()
      reads this
    {
      Tied() && Inv(machine)
    }

    constructor (maxPending: nat)
      requires maxPending > 0
      ensures Valid() && machine == Init(maxPending)
    {
      this.maxPending := maxPending;
      pending, dropped, successful := 0, 0, 0;
      stopping, senderOpen, channel, offers := false, true, [], 0;
      machine := Init(maxPending);
      new;
      InitInv(machine, maxPending);
    }

    /** Records that the fields just changed as one machine action. */
    ghost method Advance(a: Action)
      requires Inv(machine) && Enabled(machine, a)
      modifies this`machine
      ensures machine == Next(old(machine), a) && Inv(machine)
    {
      StepKeepsInv(machine, a);
      machine := Next(machine, a);
    }

    method TryReserve(ghost t: nat) returns (ok: bool)
      requires Valid() && Enabled(machine, Reserve(t))
      modifies this
      ensures Valid() && machine == Next(old(machine), Reserve(t))
      ensures ok == (old(pending) < maxPending)
    {
      hide Inv;
      ok := pending < maxPending;
      if ok { pending := pending + 1; }
      Advance(Reserve(t));
    }

    method TrySend(ghost t: nat, m: Message) returns (ok: bool)
      requires Valid() && Enabled(machine, Forwarding.TrySend(t)) && machine.producers[t].m == m
      modifies this
      ensures Valid() && machine == Next(old(machine), Forwarding.TrySend(t))
      ensures ok && channel == old(channel) + [m]
    {
      hide Inv;
      HolderCounts(machine, t);
      ok := |channel| < maxPending;
      if ok { channel := channel + [m]; }
      Advance(Forwarding.TrySend(t));
    }

    /** Gives back a slot of a producer that cannot send. */
    method GiveBack(ghost t: nat)
      requires Valid() && Enabled(machine, Action.GiveBack(t))
      modifies this
      ensures Valid() && machine == Next(old(machine), Action.GiveBack(t)) && old(pending) > 0
    {
      hide Inv;
      HolderCounts(machine, t);
      pending := pending - 1;
      Advance(Action.GiveBack(t));
    }

    method CountDrop(ghost t: nat)
      requires Valid() && Enabled(machine, Action.CountDrop(t))
      modifies this
      ensures Valid() && machine == Next(old(machine), Action.CountDrop(t))
    {
      hide Inv;
      dropped := dropped + 1;
      Advance(Action.CountDrop(t));
    }

    /** `offer_publish_with_retain` run without interference: the message is ignored, counted as
        dropped, or queued behind the others with one slot taken. */
    method OfferPublishWithRetain(
      ghost t: nat, connected: bool, publicKey: string, topic: string, payload: seq<byte>, retained: bool)
      requires Valid() && t !in machine.producers
      modifies this
      ensures Valid() && machine.producers == old(machine).producers && machine.worker == old(machine).worker
      ensures stopping == old(stopping) && senderOpen == old(senderOpen) && successful == old(successful)
      ensures if !ShouldForward(publicKey, topic) || old(stopping) then
                machine == old(machine)
              else if !connected || old(pending) >= maxPending || !old(senderOpen) then
                dropped == old(dropped) + 1 && pending == old(pending) && channel == old(channel)
              else
                && dropped == old(dropped) && pending == old(pending) + 1
                && channel == old(channel) + [Message(old(offers), topic, payload, retained)]
    {
      hide Inv, ShouldForward, Move, AnySender, TrySendFails, HoldsSlot;
      if !ShouldForward(publicKey, topic) || stopping {
        return;
      }
      var m := Message(offers, topic, payload, retained);
      offers := offers + 1;
      Advance(Offer(t, topic, payload, retained));
      Advance(CheckConnected(t, connected));
      if !connected {
        CountDrop(t);
        return;
      }
      var reserved := TryReserve(t);
      if !reserved {
        CountDrop(t);
        return;
      }
      SendReserved(t, m);
    }

    /** The end of the producer path: with its slot taken, send through a cloned sender or give up. */
    method SendReserved(ghost t: nat, m: Message)
      requires Valid() && t in machine.producers && machine.producers[t] == Reserved(m)
      modifies this
      ensures Valid() && machine.producers == old(machine).producers - {t} && machine.worker == old(machine).worker
      ensures stopping == old(stopping) && senderOpen == old(senderOpen) && successful == old(successful)
      ensures old(pending) > 0
      ensures if old(senderOpen)
              then channel == old(channel) + [m] && pending == old(pending) && dropped == old(dropped)
              else channel == old(channel) && pending == old(pending) - 1 && dropped == old(dropped) + 1
    {
      hide Inv;
      HolderCounts(machine, t);
      Advance(LookupSender(t));
      if !senderOpen {
        GiveBack(t);
        CountDrop(t);
        return;
      }
      var sent := TrySend(t, m);
      if !sent {
        assert false;
      }
    }

    /** `ensure_ready`: the stopping flag is read first, the connection second. */
    method EnsureReady(connected: bool) returns (ready: bool)
      requires Valid() && machine.worker.Holding?
      modifies this`machine
      ensures Valid() && ready == (!stopping && connected)
      ensures machine == old(machine).(worker := if ready then Ready(old(machine).worker.m) else Failed(old(machine).worker.m))
    {
      hide Inv;
      Advance(CheckStopping);
      if stopping {
        return false;
      }
      Advance(CheckSink(connected));
      ready := connected;
    }

    /** `publish`: the sink is reached exactly when ready; `ok` is its answer within the time limit. */
    method Publish(connected: bool, ok: bool) returns (sent: bool)
      requires Valid() && machine.worker.Holding?
      modifies this`machine
      ensures Valid() && sent == (!stopping && connected && ok)
      ensures machine == old(machine).(
        worker := if sent then Succeeded(old(machine).worker.m) else Failed(old(machine).worker.m),
        reached := old(machine).reached + if !stopping && connected then [old(machine).received - 1] else [])
    {
      hide Inv;
      var ready := EnsureReady(connected);
      if !ready {
        return false;
      }
      Advance(HandOver);
      Advance(FinishPublish(ok));
      sent := ok;
    }

    /** `forward`: the message just received is published or refused, and counted once. */
    method Forward(connected: bool, ok: bool)
      requires Valid() && machine.worker.Holding?
      modifies this
      ensures Valid() && machine.worker.Counted? && machine.producers == old(machine).producers
      ensures channel == old(channel) && pending == old(pending)
      ensures stopping == old(stopping) && senderOpen == old(senderOpen)
      ensures if !stopping && connected && ok
              then successful == old(successful) + 1 && dropped == old(dropped)
              else dropped == old(dropped) + 1 && successful == old(successful)
      ensures machine.sent == old(machine).sent && machine.received == old(machine).received
      ensures machine.reached == old(machine).reached + if !stopping && connected then [machine.received - 1] else []
    {
      hide Inv;
      var sent := Publish(connected, ok);
      if sent {
        successful := successful + 1;
      } else {
        dropped := dropped + 1;
      }
      Advance(CountResult);
    }

    /** One turn of the worker: the oldest message is taken, forwarded and its slot released. */
    method WorkerTurn(connected: bool, ok: bool)
      requires Valid() && machine.worker.Waiting? && channel != []
      modifies this
      ensures Valid() && machine.worker.Waiting? && machine.producers == old(machine).producers
      ensures channel == old(channel)[1..] && stopping == old(stopping) && senderOpen == old(senderOpen)
      ensures old(pending) > 0 && pending == old(pending) - 1
      ensures if !stopping && connected && ok
              then successful == old(successful) + 1 && dropped == old(dropped)
              else dropped == old(dropped) + 1 && successful == old(successful)
      ensures machine.sent == old(machine).sent && machine.received == old(machine).received + 1
      ensures machine.reached == old(machine).reached + if !stopping && connected then [old(machine).received] else []
    {
      hide Inv;
      channel := channel[1..];
      Advance(Receive);
      Forward(connected, ok);
      WorkerCounts(machine);
      pending := pending - 1;
      Advance(ReleaseSlot);
    }

    /** The worker loop over what is queued, `replies` saying how each publish goes: everything queued
        is counted exactly once, in queue order, and every slot it held is released. */
    method WorkerLoop(replies: seq<(bool, bool)>)
      requires Valid() && machine.worker.Waiting? && |replies| == |channel|
      modifies this
      ensures Valid() && machine.worker.Waiting? && channel == [] && machine.producers == old(machine).producers
      ensures dropped + successful == old(dropped) + old(successful) + |old(channel)|
      ensures pending == old(pending) - |old(channel)|
      ensures machine.sent == old(machine).sent && machine.received == |machine.sent|
    {
      hide Inv;
      var i := 0;
      QueueIsRest(machine);
      while channel != []
        invariant Valid() && machine.worker.Waiting? && machine.producers == old(machine).producers
        invariant 0 <= i <= |replies| && |channel| == |replies| - i
        invariant dropped + successful == old(dropped) + old(successful) + i
        invariant pending == old(pending) - i
        invariant machine.sent == old(machine).sent && machine.received == old(machine).received + i
        decreases |channel|
      {
        WorkerTurn(replies[i].0, replies[i].1);
        i := i + 1;
      }
    }

    /** `stop` closes admission first and the queue second; what is queued stays for the worker. */
    method Stop()
      requires Valid()
      modifies this
      ensures Valid() && stopping && (old(stopping) ==> machine == old(machine))
      ensures !old(stopping) ==> !senderOpen
      ensures channel == old(channel) && pending == old(pending) && dropped == old(dropped) && successful == old(successful)
    {
      hide Inv;
      if stopping {
        return;
      }
      OpenUntilStop(machine);
      stopping := true;
      Advance(SetStopping);
      senderOpen := false;
      Advance(TakeSender);
    }
  }
}
