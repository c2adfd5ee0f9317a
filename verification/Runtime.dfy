/**
 The state behind the runtime's lock and its critical sections, as src/meshcore_io/runtime.rs
 writes them. Each method is one critical section and is tied to the functions whose
 interleavings `UploadRuns` and `IngressRuns` study. Clock readings, the drawn jitter,
 the poster's answer and the outcome of looking at a message are parameters.
 */
module Runtime {
  import opened Common
  import opened IndexMaps
  import opened UploadQueue
  import I = Ingress

  lemma TakeOneMore<K>(s: seq<K>, n: nat)
    requires 0 < n <= |s|
    ensures s[1..][n - 1..] == s[n..] && s[..n] == [s[0]] + s[1..][..n - 1]
    ensures Items(s[..n]) == Items(s[..1]) + Items(s[1..][..n - 1])
  {
  }

  /** Dropping the oldest entry first changes nothing in what a trim keeps. */
  lemma DropOneMore<K, V>(m: IndexMap<K, V>, limit: nat)
    requires |m.order| > limit
    ensures TrimTo(DropOldest(m, 1), limit) == TrimTo(m, limit)
  {
    hide Items;
    var n := |m.order| - limit;
    if n > 1 {
      TakeOneMore(m.order, n);
      RemoveInTwo(m.values, Items(m.order[..1]), Items(m.order[1..][..n - 1]));
    }
  }

  lemma RemoveInTwo<K, V>(m: map<K, V>, a: set<K>, b: set<K>)
    ensures m - a - b == m - (a + b)
  {
  }

  class RuntimeState {
    const config: Config
    var stopped: bool
    var ingress: seq<I.IngressEntry>
    var dedup: IndexMap<string, nat>
    var jobs: seq<JobRow>
    var nodeState: NodeTable
    var nextIngressId: nat
    var nextJobId: nat
    var completedUploads: nat
    var droppedUploads: nat
    var capacityRejectedUploads: nat

    ghost function QueueView(): Queue
      reads this
    {
      Queue(jobs, nodeState, nextJobId, completedUploads, droppedUploads, capacityRejectedUploads)
    }

    ghost function IngressView(): I.Ingress
      reads this
    {
      I.Ingress(ingress, dedup, nextIngressId)
    }

    constructor (config: Config)
      ensures this.config == config && !stopped
      ensures QueueView() == EmptyQueue() && IngressView() == I.EmptyIngress()
    {
      this.config := config;
      stopped := false;
      ingress, dedup, jobs, nodeState := [], Empty(), [], Empty();
      nextIngressId, nextJobId := 0, 0;
      completedUploads, droppedUploads, capacityRejectedUploads := 0, 0, 0;
    }

    /** Whether `offer_publish` takes the message: the runtime is up, the topic is one it reads, the queue has room,
        and the message was not taken within the deduplication window. */
    ghost predicate Takes(topic: string, payload: string, now: nat)
      reads this
    {
      && !stopped && I.RelevantTopic(topic)
      && |ingress| < Max(10_000, Min(config.maxQueuedUploads * 20, 0xFFFF_FFFF_FFFF_FFFF))
      && var digest := topic + ['\0'] + payload;
         !(digest in dedup.values && now < dedup.values[digest])
    }

    method OfferPublish(topic: string, payload: string, now: nat, instant: nat)
      modifies this`ingress, this`dedup, this`nextIngressId
      ensures old(Takes(topic, payload, now)) ==>
                && nextIngressId == old(nextIngressId) + 1
                && ingress == old(ingress)
                     + [I.IngressEntry(nextIngressId, topic, payload, now, now + 86_400_000, false, 0, instant)]
      ensures !old(Takes(topic, payload, now)) ==> IngressView() == old(IngressView())
      ensures IngressView() ==
        if stopped || !I.RelevantTopic(topic) then old(IngressView())
        else I.Offer(old(IngressView()), I.MaxIngress(config.maxQueuedUploads), config.ingressDedupMs, topic, payload, now, instant)
    {
      hide I.RelevantTopic, Keep, Insert, TrimTo;
      if stopped || !I.RelevantTopic(topic) { return; }
      var digest := I.Digest(topic, payload);
      var maxIngress := Max(10_000, Min(config.maxQueuedUploads * 20, USIZE_MAX));
      if |ingress| >= maxIngress { return; }
      if digest in dedup.values {
        var expires := dedup.values[digest];
        if expires > now { return; }
        dedup := Keep(dedup, dedup.values.Keys - {digest});
      }
      dedup := Insert(dedup, digest, now + config.ingressDedupMs);
      TrimDedup();
      nextIngressId := nextIngressId + 1;
      ingress := ingress + [I.IngressEntry(nextIngressId, topic, payload, now, now + I.INGRESS_RETENTION_MS, false, 0, instant)];
    }

    method TrimDedup()
      modifies this`dedup
      ensures dedup == TrimTo(old(dedup), I.MAX_INGRESS_DEDUP_ENTRIES)
    {
      while |dedup.order| > I.MAX_INGRESS_DEDUP_ENTRIES
        invariant TrimTo(dedup, I.MAX_INGRESS_DEDUP_ENTRIES) == TrimTo(old(dedup), I.MAX_INGRESS_DEDUP_ENTRIES)
        decreases |dedup.order|
      {
        DropOneMore(dedup, I.MAX_INGRESS_DEDUP_ENTRIES);
        dedup := DropOldest(dedup, 1);
      }
    }

    method ClaimIngress(now: nat, instant: nat) returns (claimed: Option<I.IngressEntry>)
      modifies this`ingress
      ensures claimed.None? ==>
                forall j :: 0 <= j < |old(ingress)| ==>
                  var e := old(ingress)[j]; e.processing || e.expiresAt <= now || instant < e.retryAt
      ensures claimed.Some? ==>
                exists i ::
                  && 0 <= i < |old(ingress)|
                  && var e := old(ingress)[i];
                     !e.processing && now < e.expiresAt && e.retryAt <= instant && claimed.value == e.(processing := true)
      ensures var i := I.FirstEligible(old(ingress), now, instant);
              if i.None? then claimed.None? && ingress == old(ingress)
              else IngressView() == I.Claim(old(IngressView()), i.value) && claimed == Some(ingress[i.value])
    {
      var i := I.FirstEligible(ingress, now, instant);
      if i.None? { return None; }
      ingress := ingress[i.value := ingress[i.value].(processing := true)];
      claimed := Some(ingress[i.value]);
    }

    method SettleIngress(id: nat, outcome: I.Outcome, instant: nat)
      modifies this`ingress
      ensures IngressView() == I.Settle(old(IngressView()), id, outcome, instant)
    {
      var i := I.Position(ingress, id);
      if i.None? { return; }
      match outcome
      case Done => ingress := RemoveAt(ingress, i.value);
      case Permanent => ingress := RemoveAt(ingress, i.value);
      case Retryable =>
        var row := ingress[i.value].(processing := false, attempts := ingress[i.value].attempts + 1);
        ingress := ingress[i.value := row];
        if row.attempts >= I.MAX_INGRESS_ATTEMPTS {
          ingress := RemoveAt(ingress, i.value);
        } else {
          ingress := ingress[i.value := row.(retryAt := instant + I.INGRESS_RETRY_DELAY_MS)];
        }
    }

    /** The node's last upload on record, not expired, is as new as the advert or less than the distance older. */
    ghost predicate Blocks(job: UploadJob, now: nat)
      reads this
    {
      && job.nodePublicKey in nodeState.values
      && var node := nodeState.values[job.nodePublicKey];
         && node.acceptedExpiresAt.Some? && now < node.acceptedExpiresAt.value && node.acceptedTimestamp.Some?
         && var last := node.acceptedTimestamp.value;
            job.advertTimestamp <= last
            || job.advertTimestamp < Min(last + config.minReuploadSeconds % 4_294_967_296, 4_294_967_295)
    }

    ghost predicate Cools(key: string, now: nat)
      reads this
    {
      && key in nodeState.values
      && nodeState.values[key].cooldownUntil.Some? && now < nodeState.values[key].cooldownUntil.value
    }

    method AdmitJob(job: UploadJob, now: nat) returns (admission: JobAdmission)
      modifies this`jobs, this`nodeState, this`nextJobId, this`capacityRejectedUploads
      ensures admission ==
                if old(Blocks(job, now)) then Duplicate
                else if old(Cools(job.nodePublicKey, now)) then Cooldown
                else if exists i :: 0 <= i < |old(jobs)| && old(jobs)[i].job.nodePublicKey == job.nodePublicKey then Duplicate
                else if |old(jobs)| >= config.maxQueuedUploads then CapacityRejected
                else Enqueued
      ensures admission == Enqueued ==>
                nextJobId == old(nextJobId) + 1 && jobs == old(jobs) + [JobRow(nextJobId, job, Pending, now, 0)]
      ensures admission == Admission(old(QueueView()), config, job, now)
      ensures QueueView() == Admit(old(QueueView()), config, job, now)
    {
      var node := NodeOf(nodeState, job.nodePublicKey);
      if After(node.acceptedExpiresAt, now) && node.acceptedTimestamp.Some? {
        var previous := node.acceptedTimestamp.value;
        if previous >= job.advertTimestamp || job.advertTimestamp < EarliestReupload(previous, config.minReuploadSeconds) {
          return Duplicate;
        }
      }
      if After(node.cooldownUntil, now) { return Cooldown; }
      if Queued(jobs, job.nodePublicKey) { return Duplicate; }
      if |jobs| >= config.maxQueuedUploads {
        capacityRejectedUploads := capacityRejectedUploads + 1;
        return CapacityRejected;
      }
      nextJobId := nextJobId + 1;
      jobs := jobs + [JobRow(nextJobId, job, Pending, now, 0)];
      nodeState := Insert(nodeState, job.nodePublicKey, node.(cooldownUntil := Some(now + VALID_ADVERT_COOLDOWN_MS)));
      TrimNodes();
      admission := Enqueued;
    }

    method TrimNodes()
      modifies this`nodeState
      ensures nodeState == TrimTo(old(nodeState), MAX_NODE_ENTRIES)
    {
      while |nodeState.order| > MAX_NODE_ENTRIES
        invariant TrimTo(nodeState, MAX_NODE_ENTRIES) == TrimTo(old(nodeState), MAX_NODE_ENTRIES)
        decreases |nodeState.order|
      {
        DropOneMore(nodeState, MAX_NODE_ENTRIES);
        nodeState := DropOldest(nodeState, 1);
      }
    }

    /** The index of the due row that comes first by (next attempt, id). */
    method NextDue(now: nat) returns (index: Option<nat>)
      ensures index.Some? ==> IsNextDue(jobs, now, index.value)
      ensures index.None? ==> forall i :: 0 <= i < |jobs| ==> !Due(jobs[i], now)
    {
      index := None;
      for i := 0 to |jobs|
        invariant index.Some? ==> index.value < i && Due(jobs[index.value], now)
        invariant index.Some? ==> forall j :: 0 <= j < i && Due(jobs[j], now) ==> NoLater(jobs[index.value], jobs[j])
        invariant index.None? ==> forall j :: 0 <= j < i ==> !Due(jobs[j], now)
      {
        if Due(jobs[i], now) && (index.None? || !NoLater(jobs[index.value], jobs[i])) {
          index := Some(i);
        }
      }
    }

    method ClaimJob(now: nat) returns (row: Option<JobRow>)
      modifies this`jobs
      ensures row.None? ==> jobs == old(jobs) && forall i :: 0 <= i < |jobs| ==> !Due(jobs[i], now)
      ensures row.Some? ==> exists i: nat ::
                IsNextDue(old(jobs), now, i) && QueueView() == Claim(old(QueueView()), i) && row.value == ClaimedRow(old(jobs)[i])
    {
      var index := NextDue(now);
      if index.None? { return None; }
      var i := index.value;
      jobs := jobs[i := jobs[i].(status := Processing)];
      jobs := jobs[i := jobs[i].(attemptCount := jobs[i].attemptCount + 1)];
      assert jobs == old(jobs)[i := ClaimedRow(old(jobs)[i])];
      row := Some(jobs[i]);
    }

    /** `result` is what the poster answers when it is asked. */
    method ProcessJob(row: JobRow, result: PosterResult, now: nat, jitter: nat)
      modifies this`jobs, this`nodeState, this`completedUploads, this`droppedUploads
      ensures QueueView() ==
        if row.attemptCount > MaxAttempts(row.job) then FinishDropped(old(QueueView()), row.id)
        else match result
             case Accepted => FinishCompleted(old(QueueView()), row.id, row.job, true, now)
             case PermanentlyRejected => FinishCompleted(old(QueueView()), row.id, row.job, false, now)
             case RetryLater =>
               if row.attemptCount < MaxAttempts(row.job) then ScheduleRetry(old(QueueView()), config, row.id, now, jitter)
               else FinishDropped(old(QueueView()), row.id)
    {
      if row.attemptCount > Max(row.job.retriesAllowed, 1) {
        Drop(row.id);
        return;
      }
      match result
      case Accepted => Complete(row.id, row.job, true, now);
      case PermanentlyRejected => Complete(row.id, row.job, false, now);
      case RetryLater =>
        if row.attemptCount < Max(row.job.retriesAllowed, 1) {
          Reschedule(row.id, now, jitter);
        } else {
          Drop(row.id);
        }
    }

    /** The draw is below `jitterMax`, which is never zero. */
    method Reschedule(id: nat, now: nat, draw: nat)
      modifies this`jobs
      ensures QueueView() == ScheduleRetry(old(QueueView()), config, id, now, draw)
    {
      var i := FindProcessing(jobs, id);
      if i.None? { return; }
      var row := jobs[i.value];
      var factor := SaturatingPower2(Max(row.attemptCount - 1, 0));
      var backoff := Min(SaturatingMultiply(config.retryDelayMs, factor), 300_000);
      var jitterMax := Min(1_000, backoff / 4 + 1);
      var jitter := if jitterMax == 0 then 0 else draw;
      jobs := jobs[i.value := row.(status := Retry, nextAttemptAt := now + backoff + jitter)];
    }

    method Complete(id: nat, job: UploadJob, accepted: bool, now: nat)
      modifies this`jobs, this`nodeState, this`completedUploads
      ensures QueueView() == FinishCompleted(old(QueueView()), id, job, accepted, now)
    {
      var i := FindProcessing(jobs, id);
      if i.None? { return; }
      jobs := RemoveAt(jobs, i.value);
      completedUploads := completedUploads + 1;
      var current := NodeOf(nodeState, job.nodePublicKey);
      nodeState := Insert(nodeState, job.nodePublicKey,
                          if accepted then NodeState(None, Some(job.advertTimestamp), Some(now + SEEN_ADVERT_TTL_MS))
                          else current.(cooldownUntil := None));
    }

    method Drop(id: nat)
      modifies this`jobs, this`nodeState, this`droppedUploads
      ensures QueueView() == FinishDropped(old(QueueView()), id)
    {
      var i := FindProcessing(jobs, id);
      if i.None? { return; }
      var key := jobs[i.value].job.nodePublicKey;
      jobs := RemoveAt(jobs, i.value);
      droppedUploads := droppedUploads + 1;
      if key in nodeState.values {
        nodeState := Insert(nodeState, key, nodeState.values[key].(cooldownUntil := None));
      }
    }

    method SweepState(now: nat)
      modifies this`ingress, this`dedup, this`nodeState
      ensures IngressView() == I.Sweep(old(IngressView()), now)
      ensures QueueView() == SweepNodes(old(QueueView()), now)
    {
      ingress := I.KeepStaying(ingress, now);
      dedup := Keep(dedup, I.LiveDigests(dedup, now));
      nodeState := Keep(nodeState, LiveNodes(nodeState, now));
    }
  }
}
