/**
 The ingress queue of the MeshCore.io runtime (src/meshcore_io/runtime.rs, ingress.rs):
 what each lock-protected body does to the queued messages and the table of recent
 digests. A payload is modelled as the characters of its bytes.
 */
module Ingress {
  import opened Common
  import opened IndexMaps
  import Topics

  const INGRESS_RETENTION_MS: nat := 24 * 60 * 60 * 1_000
  const MAX_INGRESS_DEDUP_ENTRIES: nat := 50_000
  const MAX_INGRESS_ATTEMPTS: nat := 5
  const INGRESS_RETRY_DELAY_MS: nat := 1_000
  const MIN_INGRESS_CAPACITY: nat := 10_000

  datatype IngressEntry = IngressEntry(
    id: nat,
    topic: string,
    payload: string,
    receivedAt: nat,
    expiresAt: nat,
    processing: bool,
    attempts: nat,
    retryAt: nat)      // a reading of the monotonic clock, not of the wall clock

  datatype Offering = Full | Repeat | Taken

  datatype Outcome = Done | Retryable | Permanent

  datatype Ingress = Ingress(entries: seq<IngressEntry>, dedup: IndexMap<string, nat>, nextId: nat)

  function EmptyIngress(): Ingress {
    Ingress([], Empty(), 0)
  }

  predicate RelevantTopic(topic: string) {
    var parts := Topics.Split(topic, '/');
    |parts| >= 4 && parts[0] == "meshcore" && (parts[3] == "status" || parts[3] == "packets")
  }

  /** Stands for the hash of topic, zero byte and payload. */
  function Digest(topic: string, payload: string): string {
    topic + ['\0'] + payload
  }

  /** The multiplication saturates at 64 bits. */
  function MaxIngress(maxQueuedUploads: nat): nat {
    Max(MIN_INGRESS_CAPACITY, Min(maxQueuedUploads * 20, USIZE_MAX))
  }

  predicate Repeated(dedup: IndexMap<string, nat>, digest: string, now: nat) {
    digest in dedup.values && dedup.values[digest] > now
  }

  function Offered(s: Ingress, cap: nat, digest: string, now: nat): Offering {
    if |s.entries| >= cap then Full
    else if Repeated(s.dedup, digest, now) then Repeat
    else Taken
  }

  /** The table after `digest` is recorded, before trimming: an expired record moves to the end. */
  function Recorded(dedup: IndexMap<string, nat>, digest: string, expires: nat): IndexMap<string, nat> {
    Insert(if digest in dedup.values then Keep(dedup, dedup.values.Keys - {digest}) else dedup, digest, expires)
  }

  function Record(dedup: IndexMap<string, nat>, digest: string, expires: nat): IndexMap<string, nat> {
    TrimTo(Recorded(dedup, digest, expires), MAX_INGRESS_DEDUP_ENTRIES)
  }

  function Offer(s: Ingress, cap: nat, dedupMs: nat, topic: string, payload: string, now: nat, instant: nat): Ingress {
    if !Offered(s, cap, Digest(topic, payload), now).Taken? then s
    else Ingress(
      s.entries + [IngressEntry(s.nextId + 1, topic, payload, now, now + INGRESS_RETENTION_MS, false, 0, instant)],
      Record(s.dedup, Digest(topic, payload), now + dedupMs),
      s.nextId + 1)
  }

  predicate Eligible(e: IngressEntry, now: nat, instant: nat) {
    !e.processing && e.expiresAt > now && e.retryAt <= instant
  }

  function FirstEligible(entries: seq<IngressEntry>, now: nat, instant: nat): (i: Option<nat>)
    ensures i.Some? ==> i.value < |entries| && Eligible(entries[i.value], now, instant)
    ensures i.Some? ==> forall j :: 0 <= j < i.value ==> !Eligible(entries[j], now, instant)
    ensures i.None? ==> forall j :: 0 <= j < |entries| ==> !Eligible(entries[j], now, instant)
  {
    if entries == [] then None
    else if Eligible(entries[0], now, instant) then Some(0)
    else
      var rest := FirstEligible(entries[1..], now, instant);
      if rest.None? then None else Some(rest.value + 1)
  }

  function Claim(s: Ingress, i: nat): Ingress
    requires i < |s.entries|
  {
    s.(entries := s.entries[i := s.entries[i].(processing := true)])
  }

  function Position(entries: seq<IngressEntry>, id: nat): (i: Option<nat>)
    ensures i.Some? ==> i.value < |entries| && entries[i.value].id == id
    ensures i.Some? ==> forall j :: 0 <= j < i.value ==> entries[j].id != id
    ensures i.None? ==> forall j :: 0 <= j < |entries| ==> entries[j].id != id
  {
    if entries == [] then None
    else if entries[0].id == id then Some(0)
    else
      var rest := Position(entries[1..], id);
      if rest.None? then None else Some(rest.value + 1)
  }

  function Failed(e: IngressEntry, instant: nat): IngressEntry {
    e.(processing := false, attempts := e.attempts + 1, retryAt := instant + INGRESS_RETRY_DELAY_MS)
  }

  function Settle(s: Ingress, id: nat, outcome: Outcome, instant: nat): Ingress {
    var i := Position(s.entries, id);
    if i.None? then s
    else if outcome.Retryable? && s.entries[i.value].attempts + 1 < MAX_INGRESS_ATTEMPTS then
      s.(entries := s.entries[i.value := Failed(s.entries[i.value], instant)])
    else s.(entries := RemoveAt(s.entries, i.value))
  }

  predicate Stays(e: IngressEntry, now: nat) {
    e.processing || e.expiresAt > now
  }

  function KeepStaying(entries: seq<IngressEntry>, now: nat): (r: seq<IngressEntry>)
    ensures |r| <= |entries|
    ensures forall e :: e in r <==> e in entries && Stays(e, now)
  {
    KeepItems(entries, set e | e in entries && Stays(e, now))
  }

  function LiveDigests(dedup: IndexMap<string, nat>, now: nat): set<string> {
    set k | k in dedup.values && dedup.values[k] > now
  }

  function Sweep(s: Ingress, now: nat): Ingress {
    s.(entries := KeepStaying(s.entries, now), dedup := Keep(s.dedup, LiveDigests(s.dedup, now)))
  }

  /** Equal digests mean equal messages: a topic never holds the zero byte. */
  lemma DigestSeparates(topic1: string, payload1: string, topic2: string, payload2: string)
    requires '\0' !in topic1 && '\0' !in topic2
    ensures Digest(topic1, payload1) == Digest(topic2, payload2) <==> topic1 == topic2 && payload1 == payload2
  {
    var d1, d2 := Digest(topic1, payload1), Digest(topic2, payload2);
    assert forall k :: 0 <= k < |topic1| ==> d1[k] == topic1[k];
    assert forall k :: 0 <= k < |topic2| ==> d2[k] == topic2[k];
    if d1 == d2 {
      assert d1[|topic1|] == '\0' && d2[|topic2|] == '\0';
      assert topic1 == d1[..|topic1|] && payload1 == d1[|topic1| + 1..];
      assert topic2 == d2[..|topic2|] && payload2 == d2[|topic2| + 1..];
    }
  }
}
