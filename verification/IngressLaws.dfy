/** What the ingress worker is handed, said of the actions of the run alone. */
module IngressLaws {
  import opened Common
  import opened IndexMaps
  import opened Ingress
  import opened DedupLaws
  import opened IngressRuns
  import Topics
  import PublishRules

  // ---- Reading a run ----

  /** At `p` an offer was taken: it got the next id. */
  predicate Takes(trace: seq<System>, actions: seq<Action>, p: int) {
    && 0 <= p < |actions| && |trace| == |actions| + 1
    && actions[p].OfferMessage? && trace[p + 1].ingress.nextId == trace[p].ingress.nextId + 1
  }

  predicate TakenAs(trace: seq<System>, actions: seq<Action>, p: int, id: nat) {
    Takes(trace, actions, p) && trace[p + 1].ingress.nextId == id
  }

  /** At `q` the worker gave the message back for another attempt. */
  predicate FailsAt(trace: seq<System>, actions: seq<Action>, q: int, id: nat) {
    && 0 <= q < |actions| && |trace| == |actions| + 1
    && actions[q].SettleEntry? && actions[q].outcome == Retryable && trace[q].inFlight == Some(id)
  }

  function Failures(trace: seq<System>, actions: seq<Action>, i: nat, id: nat): nat
    requires i <= |actions| < |trace|
  {
    if i == 0 then 0 else Failures(trace, actions, i - 1, id) + if FailsAt(trace, actions, i - 1, id) then 1 else 0
  }

  predicate LastFailure(trace: seq<System>, actions: seq<Action>, q: int, i: nat, id: nat) {
    q < i && FailsAt(trace, actions, q, id) && forall k :: q < k < i ==> !FailsAt(trace, actions, k, id)
  }

  predicate IsOffered(e: IngressEntry, a: Action) {
    && a.OfferMessage? && e.topic == a.topic && e.payload == a.payload
    && e.receivedAt == a.now && e.expiresAt == a.now + 86_400_000
  }

  /** The message of the offer that got its id, to be tried at once, or a second after its last failure. */
  ghost predicate AsOffered(e: IngressEntry, trace: seq<System>, actions: seq<Action>, i: nat)
    requires i <= |actions| < |trace|
  {
    && (exists p :: p < i && TakenAs(trace, actions, p, e.id) && IsOffered(e, actions[p])
                    && (e.attempts == 0 ==> e.retryAt == actions[p].instant))
    && e.attempts == Failures(trace, actions, i, e.id)
    && (e.attempts > 0 ==> exists q :: LastFailure(trace, actions, q, i, e.id) && e.retryAt == actions[q].instant + 1_000)
  }

  // ---- Where an entry comes from ----

  predicate SameMessage(e: IngressEntry, f: IngressEntry) {
    e.id == f.id && e.topic == f.topic && e.payload == f.payload && e.receivedAt == f.receivedAt && e.expiresAt == f.expiresAt
  }

  predicate Carries(e: IngressEntry, f: IngressEntry, s: System, a: Action) {
    && SameMessage(e, f)
    && if a.SettleEntry? && a.outcome == Retryable && s.inFlight == Some(e.id) then
         f.attempts == e.attempts + 1 && f.retryAt == a.instant + 1_000
       else
         f.attempts == e.attempts && f.retryAt == e.retryAt
  }

  predicate IsNew(f: IngressEntry, s: System, a: Action) {
    && a.OfferMessage?
    && f == IngressEntry(s.ingress.nextId + 1, a.topic, a.payload, a.now, a.now + 86_400_000, false, 0, a.instant)
  }

  lemma EntryOrigin(s: System, cfg: Setup, a: Action, f: IngressEntry)
    requires Inv(s, cfg) && Enabled(s, cfg, a) && f in Next(s, cfg, a).ingress.entries
    ensures if IsNew(f, s, a) then Next(s, cfg, a).ingress.nextId == s.ingress.nextId + 1
            else exists e :: e in s.ingress.entries && Carries(e, f, s, a)
  {
    hide DedupInv, Retained, Record, RelevantTopic, Digest, Repeated;
    var entries := s.ingress.entries;
    match a
    case OfferMessage(_, _, _, _) =>
      if !IsNew(f, s, a) {
        assert f in entries;
        assert Carries(f, f, s, a);
      }
    case ClaimEntry(now, instant) =>
      var i := FirstEligible(entries, now, instant).value;
      UpdateMembers(entries, s.ingress.nextId, i, entries[i].(processing := true));
      var e := if f.id == entries[i].id then entries[i] else f;
      assert e in entries && Carries(e, f, s, a);
    case SweepAll(now) =>
      assert f in entries && Carries(f, f, s, a);
    case SettleEntry(outcome, instant) =>
      SettledOrigin(s, cfg, a, f);
  }

  lemma SettledOrigin(s: System, cfg: Setup, a: Action, f: IngressEntry)
    requires Inv(s, cfg) && Enabled(s, cfg, a) && a.SettleEntry? && f in Next(s, cfg, a).ingress.entries
    ensures exists e :: e in s.ingress.entries && Carries(e, f, s, a)
  {
    hide DedupInv, Retained;
    var entries := s.ingress.entries;
    InFlightIsFound(s, cfg);
    var i := Position(entries, s.inFlight.value).value;
    if a.outcome.Retryable? && entries[i].attempts + 1 < MAX_INGRESS_ATTEMPTS {
      UpdateMembers(entries, s.ingress.nextId, i, Failed(entries[i], a.instant));
      var e := if f.id == entries[i].id then entries[i] else f;
      assert e in entries && Carries(e, f, s, a);
    } else {
      RemoveMembers(entries, s.ingress.nextId, i);
      assert f in entries && Carries(f, f, s, a);
    }
  }

  // ---- Messages in the queue ----

  lemma FailingIsGiven(s: System, cfg: Setup)
    requires Inv(s, cfg) && s.inFlight.Some?
    ensures s.inFlight.value <= s.ingress.nextId
  {
    hide DedupInv, Retained, RelevantTopic;
    var e :| e in s.ingress.entries && e.id == s.inFlight.value;
  }

  lemma IdsGrow(s: System, cfg: Setup, a: Action)
    requires Enabled(s, cfg, a)
    ensures Next(s, cfg, a).ingress.nextId == s.ingress.nextId
         || (a.OfferMessage? && Next(s, cfg, a).ingress.nextId == s.ingress.nextId + 1)
  {
    hide Record, RelevantTopic, Digest, Repeated, KeepStaying;
  }

  /** An id not given out yet has not failed. */
  lemma {:induction false} NotFailedYet(trace: seq<System>, actions: seq<Action>, cfg: Setup, i: nat, id: nat)
    requires Run(trace, actions, cfg) && i <= |actions| && id > trace[i].ingress.nextId
    ensures Failures(trace, actions, i, id) == 0
  {
    hide Next, Inv;
    if i > 0 {
      assert Follows(trace[i - 1], cfg, actions[i - 1], trace[i]);
      RunKeepsInv(trace, actions, cfg, i - 1);
      IdsGrow(trace[i - 1], cfg, actions[i - 1]);
      NotFailedYet(trace, actions, cfg, i - 1, id);
      if trace[i - 1].inFlight.Some? { FailingIsGiven(trace[i - 1], cfg); }
    }
  }

  lemma CarriedOn(e: IngressEntry, f: IngressEntry, trace: seq<System>, actions: seq<Action>, i: nat)
    requires i < |actions| && |trace| == |actions| + 1
    requires AsOffered(e, trace, actions, i) && Carries(e, f, trace[i], actions[i])
    ensures AsOffered(f, trace, actions, i + 1)
  {
    hide IsOffered;
    var p :| p < i && TakenAs(trace, actions, p, e.id) && IsOffered(e, actions[p])
             && (e.attempts == 0 ==> e.retryAt == actions[p].instant);
    StillOffered(e, f, actions[p]);
    if FailsAt(trace, actions, i, e.id) {
      assert LastFailure(trace, actions, i, i + 1, f.id);
    } else if e.attempts > 0 {
      var q :| LastFailure(trace, actions, q, i, e.id) && e.retryAt == actions[q].instant + 1_000;
      assert LastFailure(trace, actions, q, i + 1, f.id);
    }
  }

  lemma StillOffered(e: IngressEntry, f: IngressEntry, a: Action)
    requires IsOffered(e, a) && SameMessage(e, f)
    ensures IsOffered(f, a)
  {
  }

  /** In every run each queued message carries the topic, the payload and the time of the offer that got its id, expires
      a day after it, has as many attempts behind it as it failed, and may be tried at the moment of the offer or a
      second after the last failure. */
  lemma {:induction false} MessagesAreAsOffered(trace: seq<System>, actions: seq<Action>, cfg: Setup, i: nat, f: IngressEntry)
    requires Run(trace, actions, cfg) && i < |trace| && f in trace[i].ingress.entries
    ensures AsOffered(f, trace, actions, i)
  {
    hide Next, Inv, AsOffered, Carries;
    if i > 0 {
      var s, a := trace[i - 1], actions[i - 1];
      assert Follows(s, cfg, a, trace[i]);
      RunKeepsInv(trace, actions, cfg, i - 1);
      EntryOrigin(s, cfg, a, f);
      if IsNew(f, s, a) {
        NewIsOffered(trace, actions, cfg, i, f);
      } else {
        var e :| e in s.ingress.entries && Carries(e, f, s, a);
        MessagesAreAsOffered(trace, actions, cfg, i - 1, e);
        CarriedOn(e, f, trace, actions, i - 1);
      }
    }
  }

  lemma NewIsOffered(trace: seq<System>, actions: seq<Action>, cfg: Setup, i: nat, f: IngressEntry)
    requires Run(trace, actions, cfg) && 0 < i < |trace|
    requires IsNew(f, trace[i - 1], actions[i - 1]) && trace[i].ingress.nextId == trace[i - 1].ingress.nextId + 1
    ensures AsOffered(f, trace, actions, i)
  {
    hide Next, Inv;
    NotFailedYet(trace, actions, cfg, i - 1, f.id);
    assert TakenAs(trace, actions, i - 1, f.id) && IsOffered(f, actions[i - 1]);
  }

  // ---- Claims ----

  predicate Ready(e: IngressEntry, now: nat, instant: nat) {
    !e.processing && now < e.expiresAt && e.retryAt <= instant
  }

  /** A claim is possible exactly when no message is being worked on and some message is ready: unexpired, and its
      attempt is due. */
  lemma ClaimPossibleExactly(s: System, cfg: Setup, now: nat, instant: nat)
    requires now >= s.clock
    ensures Enabled(s, cfg, ClaimEntry(now, instant))
       <==> s.inFlight.None? && exists e :: e in s.ingress.entries && Ready(e, now, instant)
  {
    var i := FirstEligible(s.ingress.entries, now, instant);
    if i.Some? { assert s.ingress.entries[i.value] in s.ingress.entries; }
  }

  /** The message claimed is the first offered of the ready ones, and it is handed out as it was offered. */
  lemma ClaimExactly(trace: seq<System>, actions: seq<Action>, cfg: Setup, i: nat) returns (e: IngressEntry)
    requires Run(trace, actions, cfg) && i < |actions| && actions[i].ClaimEntry?
    ensures trace[i].inFlight.None? && trace[i + 1].inFlight == Some(e.id)
    ensures e in trace[i].ingress.entries && AsOffered(e, trace, actions, i)
    ensures Ready(e, actions[i].now, actions[i].instant)
    ensures forall f :: f in trace[i].ingress.entries && Ready(f, actions[i].now, actions[i].instant) ==> e.id <= f.id
  {
    hide AsOffered, DedupInv, Retained, RelevantTopic, ClaimsCounted, Partition;
    var s, a := trace[i], actions[i];
    assert Follows(s, cfg, a, trace[i + 1]);
    RunKeepsInv(trace, actions, cfg, i);
    var at := FirstEligible(s.ingress.entries, a.now, a.instant).value;
    e := s.ingress.entries[at];
    MessagesAreAsOffered(trace, actions, cfg, i, e);
    forall f | f in s.ingress.entries && Ready(f, a.now, a.instant) ensures e.id <= f.id {
      var k :| 0 <= k < |s.ingress.entries| && s.ingress.entries[k] == f;
      assert Eligible(f, a.now, a.instant);
      assert at <= k;
    }
  }

  // ---- Settlements ----

  /** A settled message stays queued exactly when its attempt failed, fewer than four had failed before, and it may be
      tried again; no other message is touched. */
  lemma SettleExactly(trace: seq<System>, actions: seq<Action>, cfg: Setup, i: nat)
    requires Run(trace, actions, cfg) && i < |actions| && actions[i].SettleEntry?
    ensures trace[i].inFlight.Some? && trace[i + 1].inFlight.None?
    ensures var id, before, after := trace[i].inFlight.value, trace[i].ingress.entries, trace[i + 1].ingress.entries;
            && (id in IdSet(after) <==> actions[i].outcome == Retryable && Failures(trace, actions, i, id) < 4)
            && (forall e: IngressEntry :: e.id != id ==> (e in after <==> e in before))
  {
    hide AsOffered, DedupInv, Retained, RelevantTopic, ClaimsCounted, Partition, IdSet;
    var s, a := trace[i], actions[i];
    assert Follows(s, cfg, a, trace[i + 1]);
    RunKeepsInv(trace, actions, cfg, i);
    InFlightIsFound(s, cfg);
    var entries, id := s.ingress.entries, s.inFlight.value;
    var at := Position(entries, id).value;
    var e := entries[at];
    AttemptsAreFailures(trace, actions, cfg, i, e);
    if a.outcome.Retryable? && e.attempts + 1 < MAX_INGRESS_ATTEMPTS {
      UpdateMembers(entries, s.ingress.nextId, at, Failed(e, a.instant));
      InIdSet(trace[i + 1].ingress.entries, Failed(e, a.instant));
    } else {
      RemoveMembers(entries, s.ingress.nextId, at);
      NotInIdSet(trace[i + 1].ingress.entries, id);
    }
  }

  lemma AttemptsAreFailures(trace: seq<System>, actions: seq<Action>, cfg: Setup, i: nat, e: IngressEntry)
    requires Run(trace, actions, cfg) && i < |trace| && e in trace[i].ingress.entries
    ensures e.attempts == Failures(trace, actions, i, e.id)
  {
    MessagesAreAsOffered(trace, actions, cfg, i, e);
  }

  lemma InIdSet(entries: seq<IngressEntry>, e: IngressEntry)
    requires e in entries
    ensures e.id in IdSet(entries)
  {
  }

  lemma NotInIdSet(entries: seq<IngressEntry>, id: nat)
    requires forall e :: e in entries ==> e.id != id
    ensures id !in IdSet(entries)
  {
  }

  // ---- Which offers are taken ----

  predicate SameBytes(a: Action, b: Action) {
    a.OfferMessage? && b.OfferMessage? && a.topic + ['\0'] + a.payload == b.topic + ['\0'] + b.payload
  }

  /** One of the last 50,000 messages taken was this one, within the deduplication window. */
  predicate RecentlyTaken(trace: seq<System>, actions: seq<Action>, dedupMs: nat, i: nat)
    requires i < |actions| && |trace| == |actions| + 1 && actions[i].OfferMessage?
  {
    exists p :: 0 <= p < i && Takes(trace, actions, p) && SameBytes(actions[p], actions[i])
                && actions[i].now < actions[p].now + dedupMs && trace[i].ingress.nextId - trace[p].ingress.nextId <= 50_000
  }

  predicate IsAcceptance(trace: seq<System>, actions: seq<Action>, dedupMs: nat, p: int, h: Acceptance) {
    && Takes(trace, actions, p)
    && h == Acceptance(actions[p].topic + ['\0'] + actions[p].payload, actions[p].now + dedupMs)
  }

  lemma {:induction false} HistoryLength(trace: seq<System>, actions: seq<Action>, cfg: Setup, i: nat)
    requires Run(trace, actions, cfg) && i < |trace|
    ensures |trace[i].history| == trace[i].ingress.nextId
  {
    hide Next;
    if i > 0 {
      assert Follows(trace[i - 1], cfg, actions[i - 1], trace[i]);
      HistoryLength(trace, actions, cfg, i - 1);
      HistoryStep(trace[i - 1], cfg, actions[i - 1]);
    }
  }

  /** The history lists the messages taken in the order of their ids, and nothing else. */
  lemma {:induction false} AcceptedWasTaken(trace: seq<System>, actions: seq<Action>, cfg: Setup, i: nat, k: nat) returns (p: nat)
    requires Run(trace, actions, cfg) && i < |trace| && k < |trace[i].history|
    ensures p < i && trace[p].ingress.nextId == k && IsAcceptance(trace, actions, cfg.dedupMs, p, trace[i].history[k])
  {
    hide Next;
    p := 0;
    if i > 0 {
      var s, a := trace[i - 1], actions[i - 1];
      assert Follows(s, cfg, a, trace[i]);
      HistoryLength(trace, actions, cfg, i - 1);
      HistoryStep(s, cfg, a);
      p := i - 1;
      if k < |s.history| {
        p := AcceptedWasTaken(trace, actions, cfg, i - 1, k);
      }
    }
  }

  lemma {:induction false} TakenIsAccepted(trace: seq<System>, actions: seq<Action>, cfg: Setup, i: nat, p: nat)
    requires Run(trace, actions, cfg) && p < i < |trace| && Takes(trace, actions, p)
    ensures trace[p].ingress.nextId < |trace[i].history|
    ensures IsAcceptance(trace, actions, cfg.dedupMs, p, trace[i].history[trace[p].ingress.nextId])
  {
    hide Next;
    var s, a := trace[i - 1], actions[i - 1];
    assert Follows(s, cfg, a, trace[i]);
    HistoryLength(trace, actions, cfg, i - 1);
    HistoryStep(s, cfg, a);
    if p < i - 1 {
      TakenIsAccepted(trace, actions, cfg, i - 1, p);
    }
  }

  lemma HistoryStep(s: System, cfg: Setup, a: Action)
    requires Enabled(s, cfg, a)
    ensures var t := Next(s, cfg, a);
            if t.ingress.nextId == s.ingress.nextId + 1 then
              a.OfferMessage? && t.history == s.history + [Acceptance(a.topic + ['\0'] + a.payload, a.now + cfg.dedupMs)]
            else t.ingress.nextId == s.ingress.nextId && t.history == s.history
  {
    hide Record, RelevantTopic, Repeated, KeepStaying;
  }

  /** An offer is taken exactly when the queue has room for it and it is not a repeat of one of the last 50,000 messages
      taken within the deduplication window; one that is not taken leaves the queue and the table as they were. */
  lemma OfferTakenExactly(trace: seq<System>, actions: seq<Action>, cfg: Setup, i: nat)
    requires Run(trace, actions, cfg) && i < |actions| && actions[i].OfferMessage?
    ensures Takes(trace, actions, i)
       <==> && |trace[i].ingress.entries| < Max(10_000, Min(20 * cfg.maxQueuedUploads, 0xFFFF_FFFF_FFFF_FFFF))
            && !RecentlyTaken(trace, actions, cfg.dedupMs, i)
    ensures !Takes(trace, actions, i) ==> trace[i + 1].ingress == trace[i].ingress
  {
    hide Record, RelevantTopic, Repeated, Reflects;
    var s, a := trace[i], actions[i];
    assert Follows(s, cfg, a, trace[i + 1]);
    RepeatsAreHistory(trace, actions, cfg, i, Digest(a.topic, a.payload), a.now);
    if RepeatedIn(s.history, Digest(a.topic, a.payload), a.now) { RepeatWasTaken(trace, actions, cfg, i); }
    if RecentlyTaken(trace, actions, cfg.dedupMs, i) { TakenIsRepeat(trace, actions, cfg, i); }
  }

  lemma RepeatWasTaken(trace: seq<System>, actions: seq<Action>, cfg: Setup, i: nat)
    requires Run(trace, actions, cfg) && i < |actions| && actions[i].OfferMessage?
    requires RepeatedIn(trace[i].history, Digest(actions[i].topic, actions[i].payload), actions[i].now)
    ensures RecentlyTaken(trace, actions, cfg.dedupMs, i)
  {
    hide Next;
    HistoryLength(trace, actions, cfg, i);
    var history, a, digest := trace[i].history, actions[i], Digest(actions[i].topic, actions[i].payload);
    var k :| Max(0, |history| - 50_000) <= k < |history| && history[k].digest == digest && history[k].expires > a.now;
    var p := AcceptedWasTaken(trace, actions, cfg, i, k);
    assert SameBytes(actions[p], a);
  }

  lemma TakenIsRepeat(trace: seq<System>, actions: seq<Action>, cfg: Setup, i: nat)
    requires Run(trace, actions, cfg) && i < |actions| && actions[i].OfferMessage?
    requires RecentlyTaken(trace, actions, cfg.dedupMs, i)
    ensures RepeatedIn(trace[i].history, Digest(actions[i].topic, actions[i].payload), actions[i].now)
  {
    hide Next;
    HistoryLength(trace, actions, cfg, i);
    var history, a, digest := trace[i].history, actions[i], Digest(actions[i].topic, actions[i].payload);
    var p :| 0 <= p < i && Takes(trace, actions, p) && SameBytes(actions[p], a)
             && a.now < actions[p].now + cfg.dedupMs && trace[i].ingress.nextId - trace[p].ingress.nextId <= 50_000;
    TakenIsAccepted(trace, actions, cfg, i, p);
    assert history[trace[p].ingress.nextId].digest == digest;
  }

  // ---- Topics ----

  predicate IsTelemetry(tail: string) {
    tail == "status" || tail == "packets" || "status/" <= tail || "packets/" <= tail
  }

  /** The topics read are those of the system whose fourth level is `status` or `packets`, in small letters. */
  ghost predicate IsReadTopic(topic: string) {
    exists iata, key, tail :: '/' !in iata && '/' !in key && IsTelemetry(tail) && topic == "meshcore/" + iata + "/" + key + "/" + tail
  }

  lemma TelemetryLevel(tail: string)
    ensures IsTelemetry(tail) <==> Topics.Split(tail, '/')[0] == "status" || Topics.Split(tail, '/')[0] == "packets"
  {
    hide Topics.Split;
    PublishRules.FirstLevel(tail, "status");
    PublishRules.FirstLevel(tail, "packets");
    assert "status" + "/" == "status/" && "packets" + "/" == "packets/";
  }

  lemma ReadTopicsExactly(topic: string)
    ensures RelevantTopic(topic) <==> IsReadTopic(topic)
  {
    hide Topics.Split, Topics.Join, IsTelemetry;
    var parts := Topics.Split(topic, '/');
    if RelevantTopic(topic) {
      Topics.SplitIsFree(topic, '/');
      Topics.JoinOfSplit(topic, '/');
      var tail := Topics.Join(parts[3..], '/');
      Topics.SplitOfJoin(parts[3..], '/');
      TelemetryLevel(tail);
      Topics.JoinOfFour(parts[0], parts[1], parts[2], parts[3..], '/');
      assert parts == [parts[0], parts[1], parts[2]] + parts[3..];
      assert topic == "meshcore/" + parts[1] + "/" + parts[2] + "/" + tail;
    }
    if IsReadTopic(topic) {
      var iata, key, tail :| '/' !in iata && '/' !in key && IsTelemetry(tail) && topic == "meshcore/" + iata + "/" + key + "/" + tail;
      Topics.SplitOfFour(iata, key, tail);
      TelemetryLevel(tail);
    }
  }

  // ---- Sweeps ----

  /** A sweep keeps exactly the messages being worked on and those not expired, in order, and exactly the digests not
      expired. */
  lemma SweepExactly(s: Ingress, now: nat)
    ensures var after := Sweep(s, now);
            && (forall e :: e in after.entries <==> e in s.entries && (e.processing || e.expiresAt > now))
            && (IdsAscend(s.entries) ==> IdsAscend(after.entries))
            && (forall d :: d in after.dedup.values <==> d in s.dedup.values && s.dedup.values[d] > now)
            && (forall d :: d in after.dedup.values ==> after.dedup.values[d] == s.dedup.values[d])
            && after.nextId == s.nextId
  {
    hide KeepItems;
    if IdsAscend(s.entries) { KeepAscending(s.entries, set e | e in s.entries && Stays(e, now)); }
  }
}
