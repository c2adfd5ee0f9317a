/**
 The upload queue of the MeshCore.io runtime (src/meshcore_io/runtime.rs, queue.rs):
 what each lock-protected body does to the jobs and the per-node records.
 */
module UploadQueue {
  import opened Common
  import opened IndexMaps

  const SEEN_ADVERT_TTL_MS: nat := 72 * 60 * 60 * 1_000
  const VALID_ADVERT_COOLDOWN_MS: nat := 60 * 60 * 1_000
  const MAX_NODE_ENTRIES: nat := 50_000
  const MAX_BACKOFF_MS: nat := 300_000

  datatype Config = Config(
    maxQueuedUploads: nat,
    minReuploadSeconds: nat,
    retryDelayMs: nat,
    ingressDedupMs: nat)

  /** `content` stands for the fields the queue carries but never reads. */
  datatype UploadJob = UploadJob(nodePublicKey: string, advertTimestamp: u32, retriesAllowed: u32, content: string)

  datatype JobStatus = Pending | Processing | Retry

  datatype JobRow = JobRow(id: nat, job: UploadJob, status: JobStatus, nextAttemptAt: nat, attemptCount: nat)

  datatype NodeState = NodeState(cooldownUntil: Option<nat>, acceptedTimestamp: Option<u32>, acceptedExpiresAt: Option<nat>)

  datatype JobAdmission = Enqueued | Duplicate | Cooldown | CapacityRejected

  datatype PosterResult = Accepted | PermanentlyRejected | RetryLater

  type NodeTable = IndexMap<string, NodeState>

  datatype Queue = Queue(
    jobs: seq<JobRow>,
    nodes: NodeTable,
    nextJobId: nat,
    completed: nat,
    dropped: nat,
    capacityRejected: nat)

  function EmptyQueue(): Queue {
    Queue([], Empty(), 0, 0, 0, 0)
  }

  predicate After(t: Option<nat>, now: nat) {
    t.Some? && t.value > now
  }

  predicate NodeStateLive(n: NodeState, now: nat) {
    After(n.cooldownUntil, now) || After(n.acceptedExpiresAt, now)
  }

  function NodeOf(nodes: NodeTable, key: string): NodeState {
    if key in nodes.values then nodes.values[key] else NodeState(None, None, None)
  }

  /** `saturating_add` on u32; the configured seconds are first cut to 32 bits. */
  function EarliestReupload(previous: u32, minReuploadSeconds: nat): u32 {
    Min(previous + minReuploadSeconds % (U32_MAX + 1), U32_MAX)
  }

  predicate TooSoon(n: NodeState, timestamp: u32, now: nat, minReuploadSeconds: nat) {
    && After(n.acceptedExpiresAt, now)
    && n.acceptedTimestamp.Some?
    && (n.acceptedTimestamp.value >= timestamp
        || timestamp < EarliestReupload(n.acceptedTimestamp.value, minReuploadSeconds))
  }

  predicate Queued(jobs: seq<JobRow>, key: string) {
    exists i :: 0 <= i < |jobs| && jobs[i].job.nodePublicKey == key
  }

  function Admission(q: Queue, cfg: Config, job: UploadJob, now: nat): JobAdmission {
    var node := NodeOf(q.nodes, job.nodePublicKey);
    if TooSoon(node, job.advertTimestamp, now, cfg.minReuploadSeconds) then Duplicate
    else if After(node.cooldownUntil, now) then Cooldown
    else if Queued(q.jobs, job.nodePublicKey) then Duplicate
    else if |q.jobs| >= cfg.maxQueuedUploads then CapacityRejected
    else Enqueued
  }

  /** The node table with this admission's cooldown written, before trimming. */
  function CooledNodes(q: Queue, job: UploadJob, now: nat): NodeTable {
    Insert(q.nodes, job.nodePublicKey,
           NodeOf(q.nodes, job.nodePublicKey).(cooldownUntil := Some(now + VALID_ADVERT_COOLDOWN_MS)))
  }

  function Admit(q: Queue, cfg: Config, job: UploadJob, now: nat): Queue {
    match Admission(q, cfg, job, now)
    case Enqueued =>
      q.(jobs := q.jobs + [JobRow(q.nextJobId + 1, job, Pending, now, 0)],
         nextJobId := q.nextJobId + 1,
         nodes := TrimTo(CooledNodes(q, job, now), MAX_NODE_ENTRIES))
    case CapacityRejected => q.(capacityRejected := q.capacityRejected + 1)
    case _ => q
  }

  predicate Due(r: JobRow, now: nat) {
    (r.status.Pending? || r.status.Retry?) && r.nextAttemptAt <= now
  }

  predicate NoLater(a: JobRow, b: JobRow) {
    a.nextAttemptAt < b.nextAttemptAt || (a.nextAttemptAt == b.nextAttemptAt && a.id <= b.id)
  }

  /** The due row with the least (next attempt, id). */
  predicate IsNextDue(jobs: seq<JobRow>, now: nat, i: nat) {
    && i < |jobs| && Due(jobs[i], now)
    && forall j :: 0 <= j < |jobs| && Due(jobs[j], now) ==> NoLater(jobs[i], jobs[j])
  }

  function ClaimedRow(r: JobRow): JobRow {
    r.(status := Processing, attemptCount := r.attemptCount + 1)
  }

  function Claim(q: Queue, i: nat): Queue
    requires i < |q.jobs|
  {
    q.(jobs := q.jobs[i := ClaimedRow(q.jobs[i])])
  }

  function MaxAttempts(job: UploadJob): nat {
    Max(job.retriesAllowed, 1)
  }

  predicate IsProcessing(r: JobRow, id: nat) {
    r.id == id && r.status.Processing?
  }

  /** The first row a worker's id finds in processing. */
  function FindProcessing(jobs: seq<JobRow>, id: nat): (i: Option<nat>)
    ensures i.Some? ==> i.value < |jobs| && IsProcessing(jobs[i.value], id)
    ensures i.None? ==> forall j :: 0 <= j < |jobs| ==> !IsProcessing(jobs[j], id)
  {
    if jobs == [] then None
    else if IsProcessing(jobs[0], id) then Some(0)
    else
      var rest := FindProcessing(jobs[1..], id);
      if rest.None? then None else Some(rest.value + 1)
  }

  // ---- Backoff, in saturating 64-bit arithmetic ----

  function Power2(n: nat): nat {
    if n == 0 then 1 else 2 * Power2(n - 1)
  }

  function SaturatingPower2(n: nat): nat {
    Min(Power2(n), U64_MAX)
  }

  function SaturatingMultiply(a: nat, b: nat): nat {
    Min(a * b, U64_MAX)
  }

  function Backoff(base: nat, attemptCount: nat): nat {
    Min(SaturatingMultiply(base, SaturatingPower2(Max(attemptCount - 1, 0))), MAX_BACKOFF_MS)
  }

  function JitterMax(backoff: nat): nat {
    Min(1_000, backoff / 4 + 1)
  }

  function ScheduledRow(r: JobRow, base: nat, now: nat, jitter: nat): JobRow {
    r.(status := Retry, nextAttemptAt := now + Backoff(base, r.attemptCount) + jitter)
  }

  function ScheduleRetry(q: Queue, cfg: Config, id: nat, now: nat, jitter: nat): Queue {
    var i := FindProcessing(q.jobs, id);
    if i.None? then q
    else q.(jobs := q.jobs[i.value := ScheduledRow(q.jobs[i.value], cfg.retryDelayMs, now, jitter)])
  }

  function FinishCompleted(q: Queue, id: nat, job: UploadJob, accepted: bool, now: nat): Queue {
    var i := FindProcessing(q.jobs, id);
    if i.None? then q
    else
      var node :=
        if accepted then NodeState(None, Some(job.advertTimestamp), Some(now + SEEN_ADVERT_TTL_MS))
        else NodeOf(q.nodes, job.nodePublicKey).(cooldownUntil := None);
      q.(jobs := RemoveAt(q.jobs, i.value), completed := q.completed + 1,
         nodes := Insert(q.nodes, job.nodePublicKey, node))
  }

  function FinishDropped(q: Queue, id: nat): Queue {
    var i := FindProcessing(q.jobs, id);
    if i.None? then q
    else
      var key := q.jobs[i.value].job.nodePublicKey;
      q.(jobs := RemoveAt(q.jobs, i.value), dropped := q.dropped + 1,
         nodes := if key in q.nodes.values then Insert(q.nodes, key, q.nodes.values[key].(cooldownUntil := None)) else q.nodes)
  }

  /** The nodes a sweep keeps. */
  function LiveNodes(nodes: NodeTable, now: nat): set<string> {
    set k | k in nodes.values && NodeStateLive(nodes.values[k], now)
  }

  function SweepNodes(q: Queue, now: nat): Queue {
    q.(nodes := Keep(q.nodes, LiveNodes(q.nodes, now)))
  }

  // ---- Backoff laws ----

  lemma {:induction false} Power2Grows(n: nat)
    ensures Power2(n) >= n + 1
  {
    if n > 0 { Power2Grows(n - 1); }
  }

  /** The saturating computation is the exact doubling of the base delay, capped at five minutes; the
      jitter is drawn from exactly the values under a second and at most a quarter of it, of which there are some. */
  lemma BackoffIsExact(base: nat, attemptCount: nat, jitter: nat)
    requires attemptCount > 0
    ensures Backoff(base, attemptCount) == Min(base * Power2(attemptCount - 1), MAX_BACKOFF_MS)
    ensures Backoff(base, attemptCount + 1) == Min(2 * Backoff(base, attemptCount), MAX_BACKOFF_MS)
    ensures var backoff := Backoff(base, attemptCount);
            JitterMax(backoff) > 0 && (jitter < JitterMax(backoff) <==> jitter < 1_000 && 4 * jitter <= backoff)
  {
    CappedProduct(base, Power2(attemptCount - 1));
    CappedProduct(base, Power2(attemptCount));
    assert base * Power2(attemptCount) == 2 * (base * Power2(attemptCount - 1));
  }

  lemma CappedProduct(base: nat, factor: nat)
    ensures Min(SaturatingMultiply(base, Min(factor, U64_MAX)), MAX_BACKOFF_MS) == Min(base * factor, MAX_BACKOFF_MS)
  {
    if factor > U64_MAX && base > 0 {
      assert base * U64_MAX >= U64_MAX;
      assert base * factor >= factor;
    }
  }
}
