/**
 The ingress queue under every interleaving of publishers, the one ingress worker and
 the sweeps, until shutdown. What the worker finds out about a message between claiming
 and settling it is a parameter.
 */
module IngressRuns {
  import opened Common
  import opened IndexMaps
  import opened Ingress
  import opened DedupLaws

  datatype Setup = Setup(maxQueuedUploads: nat, dedupMs: nat)

  datatype Seen = Seen(digest: string, at: nat)

  datatype System = System(
    ingress: Ingress,
    inFlight: Option<nat>,      // what the worker has claimed
    clock: nat,
    // History, never read by a step:
    offers: seq<Seen>,          // offers that found room
    history: seq<Acceptance>,   // offers that were taken
    claims: multiset<nat>,
    takenAt: map<nat, nat>,
    failedAt: map<nat, nat>,    // readings of the monotonic clock
    finished: set<nat>,
    gaveUp: set<nat>,
    expired: set<nat>)

  datatype Action =
    | OfferMessage(topic: string, payload: string, now: nat, instant: nat)
    | ClaimEntry(now: nat, instant: nat)
    | SettleEntry(outcome: Outcome, instant: nat)
    | SweepAll(now: nat)

  function Init(): System {
    System(EmptyIngress(), None, 0, [], [], multiset{}, map[], map[], {}, {}, {})
  }

  predicate Enabled(s: System, cfg: Setup, a: Action) {
    match a
    case OfferMessage(topic, _, now, _) => now >= s.clock && RelevantTopic(topic)
    case ClaimEntry(now, instant) => now >= s.clock && s.inFlight.None? && FirstEligible(s.ingress.entries, now, instant).Some?
    case SettleEntry(_, _) => s.inFlight.Some?
    case SweepAll(now) => now >= s.clock
  }

  function IdSet(entries: seq<IngressEntry>): set<nat> {
    set e | e in entries :: e.id
  }

  function Next(s: System, cfg: Setup, a: Action): System
    requires Enabled(s, cfg, a)
  {
    match a
    case OfferMessage(topic, payload, now, instant) => AfterOffer(s, cfg, topic, payload, now, instant)
    case ClaimEntry(now, instant) =>
      var i := FirstEligible(s.ingress.entries, now, instant).value;
      var id := s.ingress.entries[i].id;
      s.(ingress := Claim(s.ingress, i), inFlight := Some(id), clock := now, claims := s.claims + multiset{id})
    case SettleEntry(outcome, instant) => AfterSettle(s, s.inFlight.value, outcome, instant)
    case SweepAll(now) =>
      var after := Sweep(s.ingress, now);
      s.(ingress := after, clock := now, expired := s.expired + (IdSet(s.ingress.entries) - IdSet(after.entries)))
  }

  function AfterOffer(s: System, cfg: Setup, topic: string, payload: string, now: nat, instant: nat): System {
    var cap, digest := MaxIngress(cfg.maxQueuedUploads), Digest(topic, payload);
    var verdict := Offered(s.ingress, cap, digest, now);
    s.(ingress := Offer(s.ingress, cap, cfg.dedupMs, topic, payload, now, instant),
       clock := now,
       offers := if verdict.Full? then s.offers else s.offers + [Seen(digest, now)],
       history := if verdict.Taken? then s.history + [Acceptance(digest, now + cfg.dedupMs)] else s.history,
       takenAt := if verdict.Taken? then s.takenAt[s.ingress.nextId + 1 := now] else s.takenAt)
  }

  function AfterSettle(s: System, id: nat, outcome: Outcome, instant: nat): System {
    var after := Settle(s.ingress, id, outcome, instant);
    var left := IdSet(s.ingress.entries) - IdSet(after.entries);
    s.(ingress := after, inFlight := None,
       failedAt := if outcome.Retryable? then s.failedAt[id := instant] else s.failedAt,
       finished := s.finished + left,
       gaveUp := if outcome.Retryable? then s.gaveUp + left else s.gaveUp)
  }

  // ---- The invariant, piece by piece ----

  /** The acceptances that the offers amount to, judged by the history rule alone. */
  function HistoryOf(offers: seq<Seen>, dedupMs: nat): seq<Acceptance> {
    if offers == [] then []
    else
      var n := |offers| - 1;
      var before := HistoryOf(offers[..n], dedupMs);
      if RepeatedIn(before, offers[n].digest, offers[n].at) then before
      else before + [Acceptance(offers[n].digest, offers[n].at + dedupMs)]
  }

  ghost predicate DedupInv(dedup: IndexMap<string, nat>, offers: seq<Seen>, history: seq<Acceptance>, clock: nat, dedupMs: nat) {
    Reflects(dedup, history, clock, clock + dedupMs) && history == HistoryOf(offers, dedupMs)
  }

  predicate IdsAscend(entries: seq<IngressEntry>) {
    forall i, j :: 0 <= i < j < |entries| ==> entries[i].id < entries[j].id
  }

  predicate Ordered(entries: seq<IngressEntry>, nextId: nat) {
    && IdsAscend(entries)
    && (forall e :: e in entries ==> 0 < e.id <= nextId && RelevantTopic(e.topic))
  }

  /** Exactly the claimed message is marked, and it is still queued. */
  predicate InFlightHeld(entries: seq<IngressEntry>, inFlight: Option<nat>) {
    && (forall e :: e in entries ==> (e.processing <==> inFlight == Some(e.id)))
    && (inFlight.Some? ==> exists e :: e in entries && e.id == inFlight.value)
  }

  ghost predicate ClaimsCounted(entries: seq<IngressEntry>, nextId: nat, claims: multiset<nat>, gaveUp: set<nat>) {
    && (forall e :: e in entries ==> claims[e.id] == e.attempts + (if e.processing then 1 else 0) && e.attempts < MAX_INGRESS_ATTEMPTS)
    && (forall id :: claims[id] <= MAX_INGRESS_ATTEMPTS)
    && (forall id :: id in claims ==> id <= nextId)
    && (forall id :: id in gaveUp ==> claims[id] == MAX_INGRESS_ATTEMPTS)
  }

  ghost predicate Partition(queued: set<nat>, finished: set<nat>, expired: set<nat>, nextId: nat) {
    && queued !! finished && queued !! expired && finished !! expired
    && forall id :: id in queued || id in finished || id in expired <==> 1 <= id <= nextId
  }

  predicate RetriesWait(entries: seq<IngressEntry>, failedAt: map<nat, nat>) {
    forall e :: e in entries && e.attempts > 0 ==> e.id in failedAt && e.retryAt == failedAt[e.id] + INGRESS_RETRY_DELAY_MS
  }

  /** Messages expire a day after they were taken, and only then does a sweep remove one. */
  predicate Retained(entries: seq<IngressEntry>, expired: set<nat>, takenAt: map<nat, nat>, nextId: nat, clock: nat) {
    && (forall e :: e in entries ==> e.id in takenAt && e.expiresAt == takenAt[e.id] + INGRESS_RETENTION_MS)
    && (forall id :: id in expired ==> id in takenAt && takenAt[id] + INGRESS_RETENTION_MS <= clock)
    && (forall id :: id in takenAt ==> id <= nextId)
  }

  ghost predicate EntriesInv(entries: seq<IngressEntry>, nextId: nat, inFlight: Option<nat>, claims: multiset<nat>,
                       failedAt: map<nat, nat>, finished: set<nat>, gaveUp: set<nat>, expired: set<nat>) {
    && Ordered(entries, nextId) && InFlightHeld(entries, inFlight)
    && ClaimsCounted(entries, nextId, claims, gaveUp)
    && Partition(IdSet(entries), finished, expired, nextId) && gaveUp <= finished
    && RetriesWait(entries, failedAt)
  }

  ghost predicate Inv(s: System, cfg: Setup) {
    && DedupInv(s.ingress.dedup, s.offers, s.history, s.clock, cfg.dedupMs)
    && |s.ingress.entries| <= MaxIngress(cfg.maxQueuedUploads)
    && EntriesInv(s.ingress.entries, s.ingress.nextId, s.inFlight, s.claims, s.failedAt, s.finished, s.gaveUp, s.expired)
    && Retained(s.ingress.entries, s.expired, s.takenAt, s.ingress.nextId, s.clock)
  }

  // ---- The digest table ----

  lemma OfferKeepsDedup(s: System, cfg: Setup, a: Action)
    requires Inv(s, cfg) && Enabled(s, cfg, a) && a.OfferMessage?
    ensures var t := Next(s, cfg, a); DedupInv(t.ingress.dedup, t.offers, t.history, t.clock, cfg.dedupMs)
  {
    hide Reflects, Record, RepeatedIn, Repeated, EntriesInv, Retained, RelevantTopic, Digest;
    var digest := Digest(a.topic, a.payload);
    var table := s.ingress.dedup;
    TimeReflects(table, s.history, s.clock, s.clock + cfg.dedupMs, a.now, a.now + cfg.dedupMs);
    QueryReflects(table, s.history, a.now, a.now + cfg.dedupMs, digest);
    if !Offered(s.ingress, MaxIngress(cfg.maxQueuedUploads), digest, a.now).Full? {
      var offers := s.offers + [Seen(digest, a.now)];
      assert offers[..|s.offers|] == s.offers;
      if !Repeated(table, digest, a.now) {
        RecordReflects(table, s.history, a.now, a.now + cfg.dedupMs, digest, a.now + cfg.dedupMs);
      }
    }
  }

  lemma OtherKeepsDedup(s: System, cfg: Setup, a: Action)
    requires Inv(s, cfg) && Enabled(s, cfg, a) && !a.OfferMessage?
    ensures var t := Next(s, cfg, a); DedupInv(t.ingress.dedup, t.offers, t.history, t.clock, cfg.dedupMs)
  {
    hide Reflects, EntriesInv, Retained;
    var t := Next(s, cfg, a);
    TimeReflects(s.ingress.dedup, s.history, s.clock, s.clock + cfg.dedupMs, t.clock, t.clock + cfg.dedupMs);
    if a.SweepAll? {
      SweepReflects(s.ingress.dedup, s.history, a.now, a.now + cfg.dedupMs);
    }
  }

  // ---- The entries ----

  lemma OfferKeepsEntries(s: System, e: IngressEntry)
    requires EntriesInv(s.ingress.entries, s.ingress.nextId, s.inFlight, s.claims, s.failedAt, s.finished, s.gaveUp, s.expired)
    requires e.id == s.ingress.nextId + 1 && !e.processing && e.attempts == 0 && RelevantTopic(e.topic)
    ensures EntriesInv(s.ingress.entries + [e], e.id, s.inFlight, s.claims, s.failedAt, s.finished, s.gaveUp, s.expired)
  {
    hide RelevantTopic;
    assert IdSet(s.ingress.entries + [e]) == IdSet(s.ingress.entries) + {e.id};
  }

  /** Replacing an entry by one with the same id. */
  lemma UpdateMembers(entries: seq<IngressEntry>, nextId: nat, i: nat, e: IngressEntry)
    requires Ordered(entries, nextId) && i < |entries| && e.id == entries[i].id && e.topic == entries[i].topic
    ensures forall x :: x in entries[i := e] <==> x == e || (x in entries && x.id != e.id)
    ensures Ordered(entries[i := e], nextId) && IdSet(entries[i := e]) == IdSet(entries)
  {
    var after := entries[i := e];
    forall x ensures x in after <==> x == e || (x in entries && x.id != e.id) {
      if x in entries && x.id != e.id {
        var k :| 0 <= k < |entries| && entries[k] == x;
        assert after[k] == x;
      }
      assert after[i] == e;
    }
    forall id ensures id in IdSet(after) <==> id in IdSet(entries) {
      if id in IdSet(entries) {
        var x :| x in entries && x.id == id;
        assert x.id == e.id ==> e in after;
        assert x.id != e.id ==> x in after;
      }
    }
  }

  lemma RemoveMembers(entries: seq<IngressEntry>, nextId: nat, i: nat)
    requires Ordered(entries, nextId) && i < |entries|
    ensures forall x :: x in RemoveAt(entries, i) <==> x in entries && x.id != entries[i].id
  {
    var rest := RemoveAt(entries, i);
    forall x ensures x in rest <==> x in entries && x.id != entries[i].id {
      if x in entries && x.id != entries[i].id {
        var k :| 0 <= k < |entries| && entries[k] == x;
        assert rest[if k < i then k else k - 1] == x;
      }
    }
  }

  lemma RemoveKeepsOrder(entries: seq<IngressEntry>, nextId: nat, i: nat)
    requires Ordered(entries, nextId) && i < |entries|
    ensures Ordered(RemoveAt(entries, i), nextId)
  {
    hide RelevantTopic;
    var rest := RemoveAt(entries, i);
    assert forall k :: 0 <= k < |rest| ==> rest[k] == entries[if k < i then k else k + 1];
  }

  lemma RemovedId(entries: seq<IngressEntry>, rest: seq<IngressEntry>, e: IngressEntry)
    requires e in entries
    requires forall x :: x in rest <==> x in entries && x.id != e.id
    ensures IdSet(entries) - IdSet(rest) == {e.id}
  {
    forall id ensures id in IdSet(entries) && id !in IdSet(rest) <==> id == e.id {
      if id in IdSet(entries) && id != e.id {
        var x :| x in entries && x.id == id;
        assert x in rest;
      }
    }
  }

  lemma ClaimKeepsEntries(s: System, i: nat)
    requires EntriesInv(s.ingress.entries, s.ingress.nextId, s.inFlight, s.claims, s.failedAt, s.finished, s.gaveUp, s.expired)
    requires s.inFlight.None? && i < |s.ingress.entries|
    ensures var id := s.ingress.entries[i].id;
            EntriesInv(Claim(s.ingress, i).entries, s.ingress.nextId, Some(id), s.claims + multiset{id}, s.failedAt, s.finished, s.gaveUp, s.expired)
  {
    var e := s.ingress.entries[i].(processing := true);
    UpdateMembers(s.ingress.entries, s.ingress.nextId, i, e);
    hide Ordered;
    assert !s.ingress.entries[i].processing;
    assert e in Claim(s.ingress, i).entries;
    assert e.id in IdSet(s.ingress.entries);
  }

  lemma FailKeepsEntries(s: System, i: nat, instant: nat)
    requires EntriesInv(s.ingress.entries, s.ingress.nextId, s.inFlight, s.claims, s.failedAt, s.finished, s.gaveUp, s.expired)
    requires i < |s.ingress.entries| && s.inFlight == Some(s.ingress.entries[i].id)
    requires s.ingress.entries[i].attempts + 1 < MAX_INGRESS_ATTEMPTS
    ensures var e := s.ingress.entries[i];
            EntriesInv(s.ingress.entries[i := Failed(e, instant)], s.ingress.nextId, None, s.claims, s.failedAt[e.id := instant],
                       s.finished, s.gaveUp, s.expired)
    ensures IdSet(s.ingress.entries[i := Failed(s.ingress.entries[i], instant)]) == IdSet(s.ingress.entries)
  {
    var e := Failed(s.ingress.entries[i], instant);
    UpdateMembers(s.ingress.entries, s.ingress.nextId, i, e);
    hide Ordered;
  }

  lemma LeaveKeepsEntries(s: System, i: nat, failedAt: map<nat, nat>, gaveUp: set<nat>)
    requires EntriesInv(s.ingress.entries, s.ingress.nextId, s.inFlight, s.claims, s.failedAt, s.finished, s.gaveUp, s.expired)
    requires i < |s.ingress.entries| && s.inFlight == Some(s.ingress.entries[i].id)
    requires forall id :: id in s.failedAt && id != s.ingress.entries[i].id ==> id in failedAt && failedAt[id] == s.failedAt[id]
    requires gaveUp == s.gaveUp
      || (gaveUp == s.gaveUp + (IdSet(s.ingress.entries) - IdSet(RemoveAt(s.ingress.entries, i))) && s.ingress.entries[i].attempts + 1 == MAX_INGRESS_ATTEMPTS)
    ensures EntriesInv(RemoveAt(s.ingress.entries, i), s.ingress.nextId, None, s.claims, failedAt,
                       s.finished + (IdSet(s.ingress.entries) - IdSet(RemoveAt(s.ingress.entries, i))), gaveUp, s.expired)
  {
    RemoveMembers(s.ingress.entries, s.ingress.nextId, i);
    RemoveKeepsOrder(s.ingress.entries, s.ingress.nextId, i);
    RemovedId(s.ingress.entries, RemoveAt(s.ingress.entries, i), s.ingress.entries[i]);
    hide Ordered, RemoveAt;
    assert s.ingress.entries[i].id in IdSet(s.ingress.entries);
  }

  lemma SweepKeepsEntries(s: System, now: nat)
    requires EntriesInv(s.ingress.entries, s.ingress.nextId, s.inFlight, s.claims, s.failedAt, s.finished, s.gaveUp, s.expired)
    ensures EntriesInv(KeepStaying(s.ingress.entries, now), s.ingress.nextId, s.inFlight, s.claims, s.failedAt, s.finished, s.gaveUp,
                       s.expired + (IdSet(s.ingress.entries) - IdSet(KeepStaying(s.ingress.entries, now))))
  {
    hide Ordered, InFlightHeld, Partition, KeepStaying;
    SweepOrdered(s.ingress.entries, s.ingress.nextId, now);
    SweepInFlight(s.ingress.entries, s.inFlight, now);
    SweepPartition(s.ingress.entries, s.finished, s.expired, s.ingress.nextId, now);
  }

  lemma SweepInFlight(entries: seq<IngressEntry>, inFlight: Option<nat>, now: nat)
    requires InFlightHeld(entries, inFlight)
    ensures InFlightHeld(KeepStaying(entries, now), inFlight)
  {
    hide KeepStaying;
    if inFlight.Some? {
      var e :| e in entries && e.id == inFlight.value;
      assert e in KeepStaying(entries, now);
    }
  }

  lemma SweepPartition(entries: seq<IngressEntry>, finished: set<nat>, expired: set<nat>, nextId: nat, now: nat)
    requires Partition(IdSet(entries), finished, expired, nextId)
    ensures Partition(IdSet(KeepStaying(entries, now)), finished, expired + (IdSet(entries) - IdSet(KeepStaying(entries, now))), nextId)
  {
    assert IdSet(KeepStaying(entries, now)) <= IdSet(entries) by { hide KeepStaying; }
    hide IdSet, KeepStaying;
  }

  lemma SweepOrdered(entries: seq<IngressEntry>, nextId: nat, now: nat)
    requires Ordered(entries, nextId)
    ensures Ordered(KeepStaying(entries, now), nextId)
  {
    hide RelevantTopic;
    KeepAscending(entries, set e | e in entries && Stays(e, now));
  }

  lemma {:induction false} KeepAscending(entries: seq<IngressEntry>, keep: set<IngressEntry>)
    requires IdsAscend(entries)
    ensures IdsAscend(KeepItems(entries, keep))
  {
    if entries != [] {
      var rest := KeepItems(entries[1..], keep);
      HeadIsLeast(entries);
      assert forall i :: 0 <= i < |rest| ==> entries[0].id < rest[i].id;
      KeepAscending(entries[1..], keep);
    }
  }

  lemma HeadIsLeast(entries: seq<IngressEntry>)
    requires IdsAscend(entries) && entries != []
    ensures IdsAscend(entries[1..]) && forall x :: x in entries[1..] ==> entries[0].id < x.id
  {
  }

  // ---- How long messages are kept ----

  lemma RowsStayRetained(entries: seq<IngressEntry>, expired: set<nat>, takenAt: map<nat, nat>, nextId: nat, clock: nat,
                         after: seq<IngressEntry>, now: nat)
    requires Retained(entries, expired, takenAt, nextId, clock) && now >= clock
    requires SameExpiries(entries, after)
    ensures Retained(after, expired, takenAt, nextId, now)
  {
  }

  lemma SweepStaysRetained(entries: seq<IngressEntry>, expired: set<nat>, takenAt: map<nat, nat>, nextId: nat, clock: nat, now: nat)
    requires Retained(entries, expired, takenAt, nextId, clock) && now >= clock
    ensures Retained(KeepStaying(entries, now), expired + (IdSet(entries) - IdSet(KeepStaying(entries, now))), takenAt, nextId, now)
  {
    var gone := IdSet(entries) - IdSet(KeepStaying(entries, now));
    forall id | id in gone ensures id in takenAt && takenAt[id] + INGRESS_RETENTION_MS <= now {
      var e :| e in entries && e.id == id;
      assert e !in KeepStaying(entries, now);
    }
  }

  lemma StepStaysRetained(s: System, cfg: Setup, a: Action)
    requires Inv(s, cfg) && Enabled(s, cfg, a)
    ensures var t := Next(s, cfg, a); Retained(t.ingress.entries, t.expired, t.takenAt, t.ingress.nextId, t.clock)
  {
    hide DedupInv, EntriesInv, Record, RelevantTopic, Digest, Repeated, SameExpiries, IdSet;
    var entries, t := s.ingress.entries, Next(s, cfg, a);
    match a
    case OfferMessage(_, _, _, _) =>
    case SweepAll(now) => SweepStaysRetained(entries, s.expired, s.takenAt, s.ingress.nextId, s.clock, now);
    case ClaimEntry(now, instant) =>
      var i := FirstEligible(entries, now, instant).value;
      UpdateKeepsExpiries(entries, i, entries[i].(processing := true));
      RowsStayRetained(entries, s.expired, s.takenAt, s.ingress.nextId, s.clock, t.ingress.entries, now);
    case SettleEntry(outcome, instant) =>
      SettleKeepsExpiries(s.ingress, s.inFlight.value, outcome, instant);
      RowsStayRetained(entries, s.expired, s.takenAt, s.ingress.nextId, s.clock, t.ingress.entries, s.clock);
  }

  /** `after` holds entries of `before`, with their ids and expiries. */
  predicate SameExpiries(before: seq<IngressEntry>, after: seq<IngressEntry>) {
    forall e :: e in after ==> exists x :: x in before && x.id == e.id && x.expiresAt == e.expiresAt
  }

  lemma UpdateKeepsExpiries(entries: seq<IngressEntry>, i: nat, e: IngressEntry)
    requires i < |entries| && e.id == entries[i].id && e.expiresAt == entries[i].expiresAt
    ensures SameExpiries(entries, entries[i := e])
  {
    forall x | x in entries[i := e] ensures exists y :: y in entries && y.id == x.id && y.expiresAt == x.expiresAt {
      if x == e { assert entries[i] in entries; }
    }
  }

  lemma RemoveKeepsExpiries(entries: seq<IngressEntry>, i: nat)
    requires i < |entries|
    ensures SameExpiries(entries, RemoveAt(entries, i))
  {
    assert forall x :: x in RemoveAt(entries, i) ==> x in entries;
  }

  lemma SettleKeepsExpiries(s: Ingress, id: nat, outcome: Outcome, instant: nat)
    ensures SameExpiries(s.entries, Settle(s, id, outcome, instant).entries)
  {
    var i := Position(s.entries, id);
    if i.Some? {
      UpdateKeepsExpiries(s.entries, i.value, Failed(s.entries[i.value], instant));
      RemoveKeepsExpiries(s.entries, i.value);
    }
  }

  // ---- One step ----

  lemma OfferStep(s: System, cfg: Setup, a: Action)
    requires Inv(s, cfg) && Enabled(s, cfg, a) && a.OfferMessage?
    ensures Inv(Next(s, cfg, a), cfg)
  {
    hide DedupInv, EntriesInv, Retained, Record, RelevantTopic, Digest, Repeated;
    var cap, digest := MaxIngress(cfg.maxQueuedUploads), Digest(a.topic, a.payload);
    StepStaysRetained(s, cfg, a);
    OfferKeepsDedup(s, cfg, a);
    if Offered(s.ingress, cap, digest, a.now).Taken? {
      OfferKeepsEntries(s, IngressEntry(s.ingress.nextId + 1, a.topic, a.payload, a.now, a.now + INGRESS_RETENTION_MS, false, 0, a.instant));
    }
  }

  lemma ClaimStep(s: System, cfg: Setup, a: Action)
    requires Inv(s, cfg) && Enabled(s, cfg, a) && a.ClaimEntry?
    ensures Inv(Next(s, cfg, a), cfg)
  {
    hide DedupInv, EntriesInv, Retained;
    StepStaysRetained(s, cfg, a);
    OtherKeepsDedup(s, cfg, a);
    ClaimKeepsEntries(s, FirstEligible(s.ingress.entries, a.now, a.instant).value);
  }

  /** The message being processed is always found again. */
  lemma InFlightIsFound(s: System, cfg: Setup)
    requires Inv(s, cfg) && s.inFlight.Some?
    ensures Position(s.ingress.entries, s.inFlight.value).Some?
    ensures s.ingress.entries[Position(s.ingress.entries, s.inFlight.value).value].attempts < MAX_INGRESS_ATTEMPTS
  {
    var e :| e in s.ingress.entries && e.id == s.inFlight.value;
  }

  lemma SettleStep(s: System, cfg: Setup, a: Action)
    requires Inv(s, cfg) && Enabled(s, cfg, a) && a.SettleEntry?
    ensures Inv(Next(s, cfg, a), cfg)
  {
    hide DedupInv, EntriesInv, Retained, IdSet, Position;
    StepStaysRetained(s, cfg, a);
    OtherKeepsDedup(s, cfg, a);
    InFlightIsFound(s, cfg);
    var i := Position(s.ingress.entries, s.inFlight.value).value;
    if a.outcome.Retryable? && s.ingress.entries[i].attempts + 1 < MAX_INGRESS_ATTEMPTS {
      FailKeepsEntries(s, i, a.instant);
      assert Next(s, cfg, a).finished == s.finished && Next(s, cfg, a).gaveUp == s.gaveUp;
    } else {
      LeaveKeepsEntries(s, i, Next(s, cfg, a).failedAt, Next(s, cfg, a).gaveUp);
    }
  }

  lemma SweepStep(s: System, cfg: Setup, a: Action)
    requires Inv(s, cfg) && Enabled(s, cfg, a) && a.SweepAll?
    ensures Inv(Next(s, cfg, a), cfg)
  {
    hide DedupInv, EntriesInv, Retained;
    StepStaysRetained(s, cfg, a);
    OtherKeepsDedup(s, cfg, a);
    SweepKeepsEntries(s, a.now);
  }

  lemma StepKeepsInv(s: System, cfg: Setup, a: Action)
    requires Inv(s, cfg) && Enabled(s, cfg, a)
    ensures Inv(Next(s, cfg, a), cfg)
  {
    hide Inv, Next;
    match a
    case OfferMessage(_, _, _, _) => OfferStep(s, cfg, a);
    case ClaimEntry(_, _) => ClaimStep(s, cfg, a);
    case SettleEntry(_, _) => SettleStep(s, cfg, a);
    case SweepAll(_) => SweepStep(s, cfg, a);
  }

  lemma InitInv(cfg: Setup)
    ensures Inv(Init(), cfg)
  {
    assert Tail(Rows(Init().ingress.dedup), [], 0, 0);
  }

  // ---- Runs ----

  predicate Follows(s: System, cfg: Setup, a: Action, s': System) {
    Enabled(s, cfg, a) && s' == Next(s, cfg, a)
  }

  predicate Run(trace: seq<System>, actions: seq<Action>, cfg: Setup) {
    && |trace| == |actions| + 1
    && trace[0] == Init()
    && forall i {:trigger actions[i]} :: 0 <= i < |actions| ==> Follows(trace[i], cfg, actions[i], trace[i + 1])
  }

  lemma {:induction false} RunKeepsInv(trace: seq<System>, actions: seq<Action>, cfg: Setup, i: nat)
    requires Run(trace, actions, cfg) && i < |trace|
    ensures Inv(trace[i], cfg)
  {
    hide Inv, Next;
    if i == 0 {
      InitInv(cfg);
    } else {
      RunKeepsInv(trace, actions, cfg, i - 1);
      assert Follows(trace[i - 1], cfg, actions[i - 1], trace[i]);
      StepKeepsInv(trace[i - 1], cfg, actions[i - 1]);
    }
  }

  /** Two runs whose queues had room for the same offers at the same times have taken the same
      messages and agree on every later repeat, whenever and however often each of them swept. */
  lemma SweepsNeverChangeRepeats(trace1: seq<System>, actions1: seq<Action>, trace2: seq<System>, actions2: seq<Action>,
                                 cfg: Setup, i: nat, j: nat, digest: string, now: nat)
    requires Run(trace1, actions1, cfg) && i < |trace1| && Run(trace2, actions2, cfg) && j < |trace2|
    requires trace1[i].offers == trace2[j].offers && now >= trace1[i].clock && now >= trace2[j].clock
    ensures trace1[i].history == trace2[j].history
    ensures Repeated(trace1[i].ingress.dedup, digest, now) <==> Repeated(trace2[j].ingress.dedup, digest, now)
  {
    RepeatsAreHistory(trace1, actions1, cfg, i, digest, now);
    RepeatsAreHistory(trace2, actions2, cfg, j, digest, now);
  }

  /** What the table answers is what the offers so far answer, by the history rule alone. */
  lemma RepeatsAreHistory(trace: seq<System>, actions: seq<Action>, cfg: Setup, i: nat, digest: string, now: nat)
    requires Run(trace, actions, cfg) && i < |trace| && now >= trace[i].clock
    ensures trace[i].history == HistoryOf(trace[i].offers, cfg.dedupMs)
    ensures Repeated(trace[i].ingress.dedup, digest, now) <==> RepeatedIn(HistoryOf(trace[i].offers, cfg.dedupMs), digest, now)
  {
    RunKeepsInv(trace, actions, cfg, i);
    hide Run, EntriesInv, Reflects, RepeatedIn, Repeated, HistoryOf;
    var s := trace[i];
    TimeReflects(s.ingress.dedup, s.history, s.clock, s.clock + cfg.dedupMs, now, now + cfg.dedupMs);
    QueryReflects(s.ingress.dedup, s.history, now, now + cfg.dedupMs, digest);
  }

  /** The table lists expiries in ascending order, so a sweep cuts off exactly a prefix and the row the
      cap evicts is one that expires soonest. */
  lemma TableStaysSorted(trace: seq<System>, actions: seq<Action>, cfg: Setup, i: nat, now: nat)
    requires Run(trace, actions, cfg) && i < |trace|
    ensures var t := trace[i].ingress.dedup;
            && Valid(t) && |t.order| <= MAX_INGRESS_DEDUP_ENTRIES
            && (forall a, b :: 0 <= a < b < |t.order| ==> RowAt(t, a).expires <= RowAt(t, b).expires)
            && exists p: nat :: p <= |t.order| && Keep(t, LiveDigests(t, now)) == DropOldest(t, p)
                 && forall a :: 0 <= a < |t.order| ==> (a < p <==> RowAt(t, a).expires <= now)
  {
    RunKeepsInv(trace, actions, cfg, i);
    hide Run, EntriesInv;
    var t := trace[i].ingress.dedup;
    SortedTable(t, trace[i].history, trace[i].clock, trace[i].clock + cfg.dedupMs, now);
  }

  lemma SortedTable(t: IndexMap<string, nat>, history: seq<Acceptance>, clock: nat, bound: nat, now: nat)
    requires Reflects(t, history, clock, bound)
    ensures |t.order| <= MAX_INGRESS_DEDUP_ENTRIES
    ensures forall a, b :: 0 <= a < b < |t.order| ==> RowAt(t, a).expires <= RowAt(t, b).expires
    ensures exists p: nat :: p <= |t.order| && Keep(t, LiveDigests(t, now)) == DropOldest(t, p)
              && forall a :: 0 <= a < |t.order| ==> (a < p <==> RowAt(t, a).expires <= now)
  {
    var rows := Rows(t);
    var p := Expired(rows, now);
    SweepDropsPrefix(t, now, bound);
    assert forall a :: 0 <= a < |t.order| ==> rows[a] == RowAt(t, a);
  }

  /** A message is processed at most five times and then is gone; it is never processed twice at once,
      nor again within a second of a failure; and the worker always finds the message it took. */
  lemma AttemptsAreBounded(trace: seq<System>, actions: seq<Action>, cfg: Setup, i: nat)
    requires Run(trace, actions, cfg) && i < |trace|
    ensures forall id :: trace[i].claims[id] <= MAX_INGRESS_ATTEMPTS
    ensures forall id :: id in trace[i].gaveUp ==> trace[i].claims[id] == MAX_INGRESS_ATTEMPTS
    ensures forall e :: e in trace[i].ingress.entries && e.processing ==> trace[i].inFlight == Some(e.id)
    ensures i < |actions| && actions[i].SettleEntry? ==> Position(trace[i].ingress.entries, trace[i].inFlight.value).Some?
    ensures i < |actions| && actions[i].ClaimEntry? ==>
              var e := trace[i].ingress.entries[FirstEligible(trace[i].ingress.entries, actions[i].now, actions[i].instant).value];
              trace[i].claims[e.id] > 0 ==> e.id in trace[i].failedAt && actions[i].instant >= trace[i].failedAt[e.id] + INGRESS_RETRY_DELAY_MS
  {
    RunKeepsInv(trace, actions, cfg, i);
    if i < |actions| {
      assert Follows(trace[i], cfg, actions[i], trace[i + 1]);
      if actions[i].SettleEntry? { InFlightIsFound(trace[i], cfg); }
    }
  }

  /** No accepted message is lost: each is queued, or was finished by the worker, or was swept out when
      a day had passed since it was taken. */
  lemma EveryMessageIsAccountedFor(trace: seq<System>, actions: seq<Action>, cfg: Setup, i: nat)
    requires Run(trace, actions, cfg) && i < |trace|
    ensures Partition(IdSet(trace[i].ingress.entries), trace[i].finished, trace[i].expired, trace[i].ingress.nextId)
    ensures |trace[i].ingress.entries| <= MaxIngress(cfg.maxQueuedUploads)
    ensures forall e :: e in trace[i].ingress.entries ==> RelevantTopic(e.topic)
    ensures forall id :: id in trace[i].expired ==> id in trace[i].takenAt && trace[i].takenAt[id] + INGRESS_RETENTION_MS <= trace[i].clock
  {
    RunKeepsInv(trace, actions, cfg, i);
  }

  // ---- Sweeps and the capacity check ----

  /** A sweep changes the verdict on an offer, then or later, in exactly one case: the queue was full
      and expired messages made room. */
  lemma SweepChangesOnlyFull(s: Ingress, cap: nat, digest: string, now: nat, later: nat)
    requires later >= now
    ensures Offered(Sweep(s, now), cap, digest, later) == Offered(s, cap, digest, later)
       <==> (|s.entries| < cap || |KeepStaying(s.entries, now)| >= cap)
  {
    var kept := Keep(s.dedup, LiveDigests(s.dedup, now));
    assert digest in s.dedup.values && s.dedup.values[digest] > now <==> digest in kept.values;
  }
}
