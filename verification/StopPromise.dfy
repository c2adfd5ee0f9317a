/**
 For which states of the bridge, at the moment `stop` has set its flag, everything not
 yet checked still reaches the sink, however things go on from there.
 */
module StopPromise {
  import opened Common
  import opened Forwarding

  // ---- Continuations ----

  /** A run on from `s` to `t`. */
  predicate Continues(trace: seq<System>, actions: seq<Action>, s: System, t: System) {
    && |trace| == |actions| + 1
    && trace[0] == s && trace[|trace| - 1] == t
    && forall i {:trigger actions[i]} :: 0 <= i < |actions| ==> Follows(trace[i], actions[i], trace[i + 1])
  }

  lemma Stay(s: System) returns (trace: seq<System>, actions: seq<Action>)
    ensures Continues(trace, actions, s, s)
  {
    trace, actions := [s], [];
  }

  lemma StepFirst(s: System, a: Action, trace: seq<System>, actions: seq<Action>, t: System)
    returns (trace': seq<System>, actions': seq<Action>)
    requires Enabled(s, a) && Continues(trace, actions, Next(s, a), t)
    ensures Continues(trace', actions', s, t)
  {
    trace', actions' := [s] + trace, [a] + actions;
    forall i | 0 <= i < |actions'| ensures Follows(trace'[i], actions'[i], trace'[i + 1]) {
      if i > 0 { assert Follows(trace[i - 1], actions[i - 1], trace[i]); }
    }
  }

  lemma Together(trace1: seq<System>, actions1: seq<Action>, s: System, u: System, trace2: seq<System>, actions2: seq<Action>, t: System)
    returns (trace: seq<System>, actions: seq<Action>)
    requires Continues(trace1, actions1, s, u) && Continues(trace2, actions2, u, t)
    ensures Continues(trace, actions, s, t)
  {
    trace, actions := trace1 + trace2[1..], actions1 + actions2;
    forall i | 0 <= i < |actions| ensures Follows(trace[i], actions[i], trace[i + 1]) {
      if i < |actions1| {
        assert Follows(trace1[i], actions1[i], trace1[i + 1]);
      } else {
        var k := i - |actions1|;
        assert Follows(trace2[k], actions2[k], trace2[k + 1]);
        assert trace[i] == trace2[k];
      }
    }
  }

  // ---- What every continuation after the flag keeps ----

  lemma {:induction false} ContinuationStops(trace: seq<System>, actions: seq<Action>, s: System, t: System, j: nat)
    requires Continues(trace, actions, s, t) && s.stopping && j < |trace|
    ensures trace[j].stopping && AtMostOneMore(s, trace[j]) && s.sent <= trace[j].sent
  {
    if j > 0 {
      hide Enabled, Next, AtMostOneMore;
      ContinuationStops(trace, actions, s, t, j - 1);
      assert Follows(trace[j - 1], actions[j - 1], trace[j]);
      hide Continues;
      StopStep(s, trace[j - 1], actions[j - 1]);
      SentGrows(trace[j - 1], actions[j - 1]);
    } else {
      NothingYet(s);
    }
  }

  lemma SentGrows(s: System, a: Action)
    requires Enabled(s, a)
    ensures s.sent <= Next(s, a).sent
  {
  }

  lemma NothingYet(s: System)
    ensures AtMostOneMore(s, s)
  {
  }

  /** Nothing is left to process, and nobody can send any more. */
  predicate Settled(s: System) {
    && s.channel == [] && !s.worker.Holding?
    && forall t :: t in s.producers ==> !MayStillSend(s.senderOpen, s.producers[t])
  }

  predicate MayStillSend(senderOpen: bool, p: Producer) {
    p.HasSender? || (senderOpen && (p.Passed? || p.Online? || p.Reserved?))
  }

  lemma SettledStep(s: System, a: Action)
    requires Settled(s) && s.stopping && Enabled(s, a)
    ensures Settled(Next(s, a)) && Next(s, a).stopping && Next(s, a).sent == s.sent
  {
  }

  lemma {:induction false} SettledStays(trace: seq<System>, actions: seq<Action>, s: System, t: System, j: nat)
    requires Continues(trace, actions, s, t) && Settled(s) && s.stopping && j < |trace|
    ensures Settled(trace[j]) && trace[j].stopping && trace[j].sent == s.sent
  {
    if j > 0 {
      hide Enabled, Next, Settled;
      SettledStays(trace, actions, s, t, j - 1);
      assert Follows(trace[j - 1], actions[j - 1], trace[j]);
      hide Continues;
      SettledStep(trace[j - 1], actions[j - 1]);
    }
  }

  // ---- Some continuation sends, some continuation drains ----

  predicate SomeoneMaySend(s: System) {
    exists t :: t in s.producers && MayStillSend(s.senderOpen, s.producers[t])
  }

  lemma SendHasRoom(s: System, t: nat)
    requires Inv(s) && t in s.producers && s.producers[t].HasSender?
    ensures !TrySendFails(s)
  {
    assert t in SlotHolders(s.producers);
  }

  /** With every slot taken, somebody else can move on. */
  lemma RoomIsMade(s: System, t: nat) returns (a: Action)
    requires Inv(s) && s.senderOpen && s.maxPending > 0 && s.pending >= s.maxPending
    requires t in s.producers && s.producers[t].Online?
    ensures Enabled(s, a) && !a.Offer? && !OfStop(a) && SomeoneMaySend(Next(s, a))
  {
    hide PlacesExact, ProducersPlaced, SentPlaced, WorkerPlaced, ReachedInOrder, SuccessesReached, Move;
    if u :| u in s.producers && HoldsSlot(s.producers[u]) {
      a := ProducerNext(u, s.producers[u]);
      if s.producers[u].HasSender? { SendHasRoom(s, u); }
    } else {
      assert SlotHolders(s.producers) == {};
      a := WorkerNext(s.worker);
    }
    assert Next(s, a).producers[t] == s.producers[t] && Next(s, a).senderOpen;
  }

  function WorkerNext(w: Worker): Action {
    match w
    case Waiting => Receive
    case Exited => Receive
    case Holding(_) => CheckStopping
    case Cleared(_) => CheckSink(true)
    case Ready(_) => HandOver
    case Publishing(_) => FinishPublish(true)
    case Succeeded(_) => CountResult
    case Failed(_) => CountResult
    case Counted(_) => ReleaseSlot
  }

  /** The next step towards a send. */
  lemma TowardsSend(s: System) returns (a: Action)
    requires Inv(s) && SomeoneMaySend(s) && s.maxPending > 0
    ensures Enabled(s, a) && !a.Offer? && !OfStop(a)
    ensures |Next(s, a).sent| > |s.sent| || SomeoneMaySend(Next(s, a))
  {
    hide Inv, Move;
    var t :| t in s.producers && MayStillSend(s.senderOpen, s.producers[t]);
    if s.producers[t].Online? && s.pending >= s.maxPending {
      a := RoomIsMade(s, t);
    } else {
      a := ProducerNext(t, s.producers[t]);
      if s.producers[t].HasSender? {
        SendHasRoom(s, t);
      } else {
        assert MayStillSend(s.senderOpen, Next(s, a).producers[t]);
      }
    }
  }

  lemma {:induction false} SomeSend(s: System) returns (trace: seq<System>, actions: seq<Action>, t: System)
    requires Inv(s) && SomeoneMaySend(s) && s.maxPending > 0
    ensures Continues(trace, actions, s, t) && Inv(t) && |t.sent| > |s.sent|
    decreases StepsLeft(s)
  {
    hide Inv, SomeoneMaySend, Continues, StepsLeft;
    var a := TowardsSend(s);
    StepKeepsInv(s, a);
    SentGrows(s, a);
    StepShrinks(s, a);
    if |Next(s, a).sent| > |s.sent| {
      t := Next(s, a);
      trace, actions := Stay(t);
    } else {
      SameLimit(s, a);
      trace, actions, t := SomeSend(Next(s, a));
    }
    trace, actions := StepFirst(s, a, trace, actions, t);
  }

  lemma SameLimit(s: System, a: Action)
    requires Enabled(s, a)
    ensures Next(s, a).maxPending == s.maxPending
  {
  }

  /** From every state after the flag some continuation drains. */
  lemma {:induction false} SomeDrain(s: System) returns (trace: seq<System>, actions: seq<Action>, t: System)
    requires Inv(s) && s.stopping
    ensures Continues(trace, actions, s, t) && Drained(t)
    decreases StepsLeft(s), s.senderOpen
  {
    hide Inv, Continues, StepsLeft;
    if Drained(s) && !s.senderOpen {
      t := s;
      trace, actions := Stay(s);
    } else {
      var a := TakeSender;
      if !s.senderOpen {
        DrainNeverStuck(s);
        a :| Enabled(s, a) && !a.Offer? && !OfStop(a);
      }
      StepKeepsInv(s, a);
      StepShrinks(s, a);
      StoppingStays(s, a);
      trace, actions, t := SomeDrain(Next(s, a));
      trace, actions := StepFirst(s, a, trace, actions, t);
    }
  }

  // ---- The exact condition ----

  lemma UncheckedIsNotReached(s: System, t: System, p: nat)
    requires Inv(s) && AtMostOneMore(s, t) && Unchecked(s, p)
    ensures p !in t.reached
  {
    hide CountsTrue, ProducersPlaced, SentPlaced, SuccessesReached;
  }

  /** From a state that is not settled some continuation drains and drops a message. */
  lemma UnsettledLoses(s: System) returns (trace: seq<System>, actions: seq<Action>, t: System)
    requires Inv(s) && s.stopping && s.maxPending > 0 && !Settled(s)
    ensures Continues(trace, actions, s, t) && Drained(t) && !QueueReachesSink(s, t)
  {
    hide Continues;
    var p := WaitingPosition(s);
    var u := s;
    trace, actions := Stay(s);
    if s.channel == [] && !s.worker.Holding? {
      trace, actions, u := SomeSend(s);
      EndStops(trace, actions, s, u);
    }
    assert Inv(u) && u.stopping && p < |u.sent| && Unchecked(s, p);
    hide Inv, Settled, Unchecked;
    var trace2, actions2;
    trace2, actions2, t := SomeDrain(u);
    EndStops(trace2, actions2, u, t);
    trace, actions := Together(trace, actions, s, u, trace2, actions2, t);
    EndStops(trace, actions, s, t);
    UncheckedIsNotReached(s, t, p);
  }

  lemma EndStops(trace: seq<System>, actions: seq<Action>, s: System, t: System)
    requires Continues(trace, actions, s, t) && s.stopping
    ensures t.stopping && AtMostOneMore(s, t) && s.sent <= t.sent
  {
    ContinuationStops(trace, actions, s, t, |trace| - 1);
  }

  /** The position of the first message that waits, or of the next one to be sent. */
  function WaitingPosition(s: System): nat
    requires Inv(s)
  {
    if s.worker.Holding? then s.received - 1 else s.received
  }

  /** Whatever the order and the outcomes, everything unchecked when the flag was set still reaches the sink
      in every drained continuation exactly when the state was settled: nothing queued, nothing just
      received, and no producer left that could still send. */
  lemma PromiseKeptByAll(s: System)
    requires Inv(s) && s.stopping && s.maxPending > 0
    ensures (forall trace, actions, t :: Continues(trace, actions, s, t) && Drained(t) ==> QueueReachesSink(s, t)) <==> Settled(s)
  {
    if Settled(s) {
      forall trace, actions, t | Continues(trace, actions, s, t) && Drained(t) ensures QueueReachesSink(s, t) {
        SettledStays(trace, actions, s, t, |trace| - 1);
        assert s.received == |s.sent|;
      }
    } else {
      var trace, actions, t := UnsettledLoses(s);
    }
  }
}
