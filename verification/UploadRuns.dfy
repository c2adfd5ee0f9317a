/**
 The upload runtime under every interleaving, until shutdown: admissions, any
 number of workers claiming, posting and settling, and sweeps, each lock-protected
 body one step. A worker keeps the row it cloned when it claimed.
 */
module UploadRuns {
  import opened Common
  import opened IndexMaps
  import opened UploadQueue

  datatype Worker =
    | Claimed(row: JobRow)    // took the row, has not posted it yet
    | Posting(row: JobRow)    // the upload is under way

  datatype Event =
    | Admitted(id: nat, job: UploadJob, at: nat, forgot: set<string>)   // and the nodes its trim evicted
    | ClaimedAt(id: nat, at: nat)
    | Retried(id: nat, attempt: nat, at: nat)
    | AcceptedUpload(id: nat, job: UploadJob, at: nat)

  datatype System = System(
    queue: Queue,
    workers: map<nat, Worker>,    // idle workers are absent
    clock: nat,
    // History, never read by a step:
    log: seq<Event>,
    admitted: map<nat, UploadJob>,
    posts: multiset<nat>)         // by job id

  datatype Action =
    | AdmitJob(job: UploadJob, now: nat)
    | ClaimJob(w: nat, i: nat, now: nat)
    | Begin(w: nat)
    | Settle(w: nat, result: PosterResult, now: nat, jitter: nat)
    | Sweep(now: nat)

  function Init(): System {
    System(EmptyQueue(), map[], 0, [], map[], multiset{})
  }

  predicate Enabled(s: System, cfg: Config, a: Action) {
    match a
    case AdmitJob(_, now) => now >= s.clock
    case ClaimJob(w, i, now) => now >= s.clock && w !in s.workers && IsNextDue(s.queue.jobs, now, i)
    case Begin(w) => w in s.workers && s.workers[w].Claimed?
    case Settle(w, _, now, jitter) =>
      && now >= s.clock && w in s.workers && s.workers[w].Posting?
      && jitter < JitterMax(Backoff(cfg.retryDelayMs, s.workers[w].row.attemptCount))
    case Sweep(now) => now >= s.clock
  }

  function Next(s: System, cfg: Config, a: Action): System
    requires Enabled(s, cfg, a)
  {
    match a
    case AdmitJob(job, now) => AfterAdmit(s, cfg, job, now)
    case ClaimJob(w, i, now) =>
      s.(queue := Claim(s.queue, i), workers := s.workers[w := Claimed(ClaimedRow(s.queue.jobs[i]))], clock := now,
         log := s.log + [ClaimedAt(s.queue.jobs[i].id, now)])
    case Begin(w) =>
      var row := s.workers[w].row;
      if row.attemptCount > MaxAttempts(row.job) then
        s.(queue := FinishDropped(s.queue, row.id), workers := s.workers - {w})
      else
        s.(workers := s.workers[w := Posting(row)], posts := s.posts + multiset{row.id})
    case Settle(w, result, now, jitter) => AfterSettle(s, cfg, w, s.workers[w].row, result, now, jitter)
    case Sweep(now) => s.(queue := SweepNodes(s.queue, now), clock := now)
  }

  function AfterAdmit(s: System, cfg: Config, job: UploadJob, now: nat): System {
    var q := Admit(s.queue, cfg, job, now);
    if Admission(s.queue, cfg, job, now).Enqueued? then
      s.(queue := q, clock := now, admitted := s.admitted[q.nextJobId := job],
         log := s.log + [Admitted(q.nextJobId, job, now, Trimmed(CooledNodes(s.queue, job, now), MAX_NODE_ENTRIES))])
    else s.(queue := q, clock := now)
  }

  function AfterSettle(s: System, cfg: Config, w: nat, row: JobRow, result: PosterResult, now: nat, jitter: nat): System {
    var found := FindProcessing(s.queue.jobs, row.id).Some?;
    var t := s.(workers := s.workers - {w}, clock := now);
    match result
    case Accepted =>
      t.(queue := FinishCompleted(s.queue, row.id, row.job, true, now),
         log := if found then s.log + [AcceptedUpload(row.id, row.job, now)] else s.log)
    case PermanentlyRejected => t.(queue := FinishCompleted(s.queue, row.id, row.job, false, now))
    case RetryLater =>
      if row.attemptCount < MaxAttempts(row.job) then
        t.(queue := ScheduleRetry(s.queue, cfg, row.id, now, jitter),
           log := if found then s.log + [Retried(row.id, row.attemptCount, now)] else s.log)
      else t.(queue := FinishDropped(s.queue, row.id))
  }

  // ---- The invariant, piece by piece ----

  predicate IdsAscend(jobs: seq<JobRow>, nextJobId: nat) {
    && (forall i, j :: 0 <= i < j < |jobs| ==> jobs[i].id < jobs[j].id)
    && (forall i :: 0 <= i < |jobs| ==> jobs[i].id <= nextJobId)
  }

  predicate OnePerNode(jobs: seq<JobRow>) {
    forall i, j :: 0 <= i < j < |jobs| ==> jobs[i].job.nodePublicKey != jobs[j].job.nodePublicKey
  }

  predicate Accounted(q: Queue, cfg: Config) {
    && q.nextJobId == |q.jobs| + q.completed + q.dropped
    && |q.jobs| <= cfg.maxQueuedUploads
    && Valid(q.nodes)
    && |q.nodes.order| + |q.jobs| <= MAX_NODE_ENTRIES + cfg.maxQueuedUploads
  }

  predicate QueueInv(q: Queue, cfg: Config) {
    IdsAscend(q.jobs, q.nextJobId) && OnePerNode(q.jobs) && Accounted(q, cfg)
  }

  /** Every row in processing is held by exactly one worker, whose snapshot is the stored row. */
  predicate Held(jobs: seq<JobRow>, workers: map<nat, Worker>) {
    && (forall w :: w in workers ==> workers[w].row in jobs && workers[w].row.status.Processing?)
    && (forall w, v :: w in workers && v in workers && w != v ==> workers[w].row.id != workers[v].row.id)
    && (forall r :: r in jobs && r.status.Processing? ==> exists w :: w in workers && workers[w].row == r)
  }

  predicate Admissions(jobs: seq<JobRow>, admitted: map<nat, UploadJob>, nextJobId: nat) {
    && (forall r :: r in jobs ==> r.id in admitted && admitted[r.id] == r.job)
    && (forall id :: id in admitted ==> id <= nextJobId)
  }

  predicate LogKnown(log: seq<Event>, admitted: map<nat, UploadJob>) {
    forall e :: e in log ==> e.id in admitted
  }

  /** Posts are counted exactly by the rows' attempts, and attempts stay within their limit. */
  predicate PostsCounted(jobs: seq<JobRow>, workers: map<nat, Worker>, admitted: map<nat, UploadJob>, posts: multiset<nat>) {
    && (forall r :: r in jobs && !r.status.Processing? ==> posts[r.id] == r.attemptCount < MaxAttempts(r.job))
    && (forall w :: w in workers ==>
          && 0 < workers[w].row.attemptCount <= MaxAttempts(workers[w].row.job)
          && workers[w].row.attemptCount == posts[workers[w].row.id] + if workers[w].Claimed? then 1 else 0)
    && (forall id :: id in admitted ==> posts[id] <= MaxAttempts(admitted[id]))
    && (forall id :: id in posts ==> id in admitted)
  }

  function RetryDelay(base: nat, attempt: nat): nat {
    if attempt == 0 then 0 else Min(base * Power2(attempt - 1), MAX_BACKOFF_MS)
  }

  predicate DelayedRow(r: JobRow, e: Event, clock: nat, base: nat)
    requires e.Retried?
  {
    r.id == e.id ==> (if r.status.Processing? then clock else r.nextAttemptAt) >= e.at + RetryDelay(base, e.attempt)
  }

  /** No retried row becomes due, or is claimed, before its delay has passed. */
  predicate Delayed(jobs: seq<JobRow>, log: seq<Event>, clock: nat, base: nat) {
    && (forall e :: e in log && e.Retried? ==> e.attempt > 0)
    && (forall r, e :: r in jobs && e in log && e.Retried? ==> DelayedRow(r, e, clock, base))
    && (forall a, b :: 0 <= a < b < |log| && log[a].Retried? && log[b].ClaimedAt? && log[a].id == log[b].id
          ==> log[b].at >= log[a].at + RetryDelay(base, log[a].attempt))
  }

  predicate Inv(s: System, cfg: Config) {
    && QueueInv(s.queue, cfg)
    && Held(s.queue.jobs, s.workers)
    && Admissions(s.queue.jobs, s.admitted, s.queue.nextJobId)
    && LogKnown(s.log, s.admitted)
    && PostsCounted(s.queue.jobs, s.workers, s.admitted, s.posts)
    && Delayed(s.queue.jobs, s.log, s.clock, cfg.retryDelayMs)
  }

  // ---- Rows ----

  lemma RemoveMembers(jobs: seq<JobRow>, i: nat, nextJobId: nat)
    requires i < |jobs| && IdsAscend(jobs, nextJobId)
    ensures forall r :: r in RemoveAt(jobs, i) <==> r in jobs && r.id != jobs[i].id
  {
    var rest := RemoveAt(jobs, i);
    forall r ensures r in rest <==> r in jobs && r.id != jobs[i].id {
      if r in jobs && r.id != jobs[i].id {
        var k :| 0 <= k < |jobs| && jobs[k] == r;
        assert rest[if k < i then k else k - 1] == r;
      }
    }
  }

  lemma RemoveKeepsOrder(jobs: seq<JobRow>, i: nat, nextJobId: nat)
    requires i < |jobs| && IdsAscend(jobs, nextJobId) && OnePerNode(jobs)
    ensures IdsAscend(RemoveAt(jobs, i), nextJobId) && OnePerNode(RemoveAt(jobs, i))
  {
    var rest := RemoveAt(jobs, i);
    assert forall k :: 0 <= k < |rest| ==> rest[k] == jobs[if k < i then k else k + 1];
  }

  lemma UpdateMembers(jobs: seq<JobRow>, i: nat, row: JobRow, nextJobId: nat)
    requires i < |jobs| && IdsAscend(jobs, nextJobId) && row.id == jobs[i].id && row.job == jobs[i].job
    ensures forall r :: r in jobs[i := row] <==> r == row || (r in jobs && r.id != row.id)
    ensures IdsAscend(jobs[i := row], nextJobId)
    ensures OnePerNode(jobs) ==> OnePerNode(jobs[i := row])
  {
    forall r ensures r in jobs[i := row] <==> r == row || (r in jobs && r.id != row.id) {
      if r in jobs && r.id != row.id {
        var k :| 0 <= k < |jobs| && jobs[k] == r;
        assert jobs[i := row][k] == r;
      }
      assert jobs[i := row][i] == row;
    }
  }

  /** A held row is found by its id. */
  lemma HeldRowIsFound(jobs: seq<JobRow>, nextJobId: nat, row: JobRow)
    requires IdsAscend(jobs, nextJobId) && row in jobs && row.status.Processing?
    ensures FindProcessing(jobs, row.id).Some? && jobs[FindProcessing(jobs, row.id).value] == row
  {
    var k :| 0 <= k < |jobs| && jobs[k] == row;
    assert IsProcessing(jobs[k], row.id);
  }

  // ---- The queue on its own ----

  lemma AppendKeepsOrder(jobs: seq<JobRow>, row: JobRow, nextJobId: nat)
    requires IdsAscend(jobs, nextJobId) && OnePerNode(jobs)
    requires row.id == nextJobId + 1 && !Queued(jobs, row.job.nodePublicKey)
    ensures IdsAscend(jobs + [row], nextJobId + 1) && OnePerNode(jobs + [row])
  {
  }

  lemma AdmitKeepsQueue(q: Queue, cfg: Config, job: UploadJob, now: nat)
    requires QueueInv(q, cfg)
    ensures QueueInv(Admit(q, cfg, job, now), cfg)
    ensures Admission(q, cfg, job, now).Enqueued? ==> |Admit(q, cfg, job, now).nodes.order| <= MAX_NODE_ENTRIES
  {
    hide TooSoon, NodeOf, IdsAscend, OnePerNode, TrimTo, Valid, Queued;
    if Admission(q, cfg, job, now).Enqueued? {
      AppendKeepsOrder(q.jobs, JobRow(q.nextJobId + 1, job, Pending, now, 0), q.nextJobId);
      InsertValid(q.nodes, job.nodePublicKey, NodeOf(q.nodes, job.nodePublicKey).(cooldownUntil := Some(now + VALID_ADVERT_COOLDOWN_MS)));
      TrimValid(CooledNodes(q, job, now), MAX_NODE_ENTRIES);
    }
  }

  lemma ClaimKeepsQueue(q: Queue, cfg: Config, i: nat)
    requires QueueInv(q, cfg) && i < |q.jobs|
    ensures QueueInv(Claim(q, i), cfg)
  {
    UpdateMembers(q.jobs, i, ClaimedRow(q.jobs[i]), q.nextJobId);
  }

  lemma RetryKeepsQueue(q: Queue, cfg: Config, id: nat, now: nat, jitter: nat)
    requires QueueInv(q, cfg)
    ensures QueueInv(ScheduleRetry(q, cfg, id, now, jitter), cfg)
  {
    var i := FindProcessing(q.jobs, id);
    if i.Some? {
      UpdateMembers(q.jobs, i.value, ScheduledRow(q.jobs[i.value], cfg.retryDelayMs, now, jitter), q.nextJobId);
    }
  }

  lemma CompleteKeepsQueue(q: Queue, cfg: Config, id: nat, job: UploadJob, accepted: bool, now: nat)
    requires QueueInv(q, cfg)
    ensures QueueInv(FinishCompleted(q, id, job, accepted, now), cfg)
  {
    hide IdsAscend, OnePerNode, NodeOf;
    var i := FindProcessing(q.jobs, id);
    if i.Some? {
      RemoveKeepsOrder(q.jobs, i.value, q.nextJobId);
      InsertValid(q.nodes, job.nodePublicKey, FinishCompleted(q, id, job, accepted, now).nodes.values[job.nodePublicKey]);
    }
  }

  lemma DropKeepsQueue(q: Queue, cfg: Config, id: nat)
    requires QueueInv(q, cfg)
    ensures QueueInv(FinishDropped(q, id), cfg)
  {
    hide IdsAscend, OnePerNode;
    var i := FindProcessing(q.jobs, id);
    if i.Some? {
      var key := q.jobs[i.value].job.nodePublicKey;
      RemoveKeepsOrder(q.jobs, i.value, q.nextJobId);
      if key in q.nodes.values {
        InsertValid(q.nodes, key, q.nodes.values[key].(cooldownUntil := None));
      }
    }
  }

  lemma SweepKeepsQueue(q: Queue, cfg: Config, now: nat)
    requires QueueInv(q, cfg)
    ensures QueueInv(SweepNodes(q, now), cfg)
  {
    KeepValid(q.nodes, LiveNodes(q.nodes, now));
  }

  // ---- Rows and workers together: the four ways a row changes ----

  /** A row leaves the queue and its worker becomes idle. */
  lemma RowLeaves(jobs: seq<JobRow>, workers: map<nat, Worker>, w: nat, after: seq<JobRow>)
    requires w in workers && Held(jobs, workers)
    requires forall r :: r in after <==> r in jobs && r.id != workers[w].row.id
    ensures Held(after, workers - {w})
  {
    forall r | r in after && r.status.Processing? ensures exists v :: v in workers - {w} && (workers - {w})[v].row == r {
      var v :| v in workers && workers[v].row == r;
      assert v in workers - {w};
    }
  }

  /** A held row is put back for a retry and its worker becomes idle. */
  lemma RowReturns(jobs: seq<JobRow>, workers: map<nat, Worker>, w: nat, after: seq<JobRow>, row: JobRow)
    requires w in workers && Held(jobs, workers)
    requires row.id == workers[w].row.id && !row.status.Processing?
    requires forall r :: r in after <==> r == row || (r in jobs && r.id != row.id)
    ensures Held(after, workers - {w})
  {
    forall r | r in after && r.status.Processing? ensures exists v :: v in workers - {w} && (workers - {w})[v].row == r {
      var v :| v in workers && workers[v].row == r;
      assert v in workers - {w};
    }
  }

  /** A free row is claimed by an idle worker. */
  lemma RowTaken(jobs: seq<JobRow>, workers: map<nat, Worker>, w: nat, after: seq<JobRow>, free: JobRow, row: JobRow)
    requires w !in workers && Held(jobs, workers)
    requires free in jobs && !free.status.Processing? && row.id == free.id && row.status.Processing?
    requires forall r, t :: r in jobs && t in jobs && r.id == t.id ==> r == t
    requires forall r :: r in after <==> r == row || (r in jobs && r.id != row.id)
    ensures Held(after, workers[w := Claimed(row)])
  {
    var ws := workers[w := Claimed(row)];
    forall r | r in after && r.status.Processing? ensures exists v :: v in ws && ws[v].row == r {
      if r == row {
        assert ws[w].row == r;
      } else {
        var v :| v in workers && workers[v].row == r;
        assert ws[v].row == r;
      }
    }
  }

  lemma RowArrives(jobs: seq<JobRow>, workers: map<nat, Worker>, row: JobRow)
    requires Held(jobs, workers) && !row.status.Processing?
    ensures Held(jobs + [row], workers)
  {
  }

  lemma WorkerPosts(jobs: seq<JobRow>, workers: map<nat, Worker>, w: nat)
    requires Held(jobs, workers) && w in workers
    ensures Held(jobs, workers[w := Posting(workers[w].row)])
  {
    var ws := workers[w := Posting(workers[w].row)];
    forall r | r in jobs && r.status.Processing? ensures exists v :: v in ws && ws[v].row == r {
      var v :| v in workers && workers[v].row == r;
      assert ws[v].row == r;
    }
  }

  predicate UniqueIds(jobs: seq<JobRow>) {
    forall r, t :: r in jobs && t in jobs && r.id == t.id ==> r == t
  }

  lemma AscendingIsUnique(jobs: seq<JobRow>, nextJobId: nat)
    requires IdsAscend(jobs, nextJobId)
    ensures UniqueIds(jobs)
  {
  }

  lemma PostsAtArrival(jobs: seq<JobRow>, workers: map<nat, Worker>, admitted: map<nat, UploadJob>, posts: multiset<nat>, row: JobRow)
    requires PostsCounted(jobs, workers, admitted, posts) && Held(jobs, workers)
    requires row.id !in admitted && row.status.Pending? && row.attemptCount == 0
    ensures PostsCounted(jobs + [row], workers, admitted[row.id := row.job], posts)
  {
  }

  lemma PostsAtClaim(jobs: seq<JobRow>, workers: map<nat, Worker>, admitted: map<nat, UploadJob>, posts: multiset<nat>,
                     w: nat, after: seq<JobRow>, free: JobRow)
    requires PostsCounted(jobs, workers, admitted, posts) && w !in workers
    requires free in jobs && !free.status.Processing?
    requires forall r :: r in after <==> r == ClaimedRow(free) || (r in jobs && r.id != free.id)
    ensures PostsCounted(after, workers[w := Claimed(ClaimedRow(free))], admitted, posts)
  {
  }

  lemma PostsAtPost(jobs: seq<JobRow>, workers: map<nat, Worker>, admitted: map<nat, UploadJob>, posts: multiset<nat>, w: nat)
    requires PostsCounted(jobs, workers, admitted, posts) && Held(jobs, workers) && UniqueIds(jobs)
    requires w in workers && workers[w].Claimed?
    requires workers[w].row.id in admitted && admitted[workers[w].row.id] == workers[w].row.job
    ensures PostsCounted(jobs, workers[w := Posting(workers[w].row)], admitted, posts + multiset{workers[w].row.id})
  {
  }

  lemma PostsAtRetry(jobs: seq<JobRow>, workers: map<nat, Worker>, admitted: map<nat, UploadJob>, posts: multiset<nat>,
                     w: nat, after: seq<JobRow>, row: JobRow)
    requires PostsCounted(jobs, workers, admitted, posts)
    requires w in workers && workers[w].Posting? && row.id == workers[w].row.id && row.job == workers[w].row.job
    requires row.attemptCount == workers[w].row.attemptCount < MaxAttempts(row.job)
    requires forall r :: r in after <==> r == row || (r in jobs && r.id != row.id)
    ensures PostsCounted(after, workers - {w}, admitted, posts)
  {
  }

  lemma PostsAtFinish(jobs: seq<JobRow>, workers: map<nat, Worker>, admitted: map<nat, UploadJob>, posts: multiset<nat>,
                      w: nat, after: seq<JobRow>)
    requires PostsCounted(jobs, workers, admitted, posts)
    requires forall r :: r in after ==> r in jobs
    ensures PostsCounted(after, workers - {w}, admitted, posts)
  {
  }

  /** Anything but a retry or a claim may be logged, and time may pass. */
  lemma DelaysLast(jobs: seq<JobRow>, log: seq<Event>, clock: nat, base: nat, after: seq<JobRow>, e: Event, now: nat)
    requires Delayed(jobs, log, clock, base) && now >= clock
    requires forall r :: r in after ==> r in jobs
    ensures Delayed(after, log, now, base)
    ensures !e.Retried? && !e.ClaimedAt? ==> Delayed(after, log + [e], now, base)
  {
  }

  lemma DelayAtArrival(jobs: seq<JobRow>, log: seq<Event>, clock: nat, base: nat, admitted: map<nat, UploadJob>, row: JobRow, e: Event, now: nat)
    requires Delayed(jobs, log, clock, base) && now >= clock && LogKnown(log, admitted)
    requires row.id !in admitted && e.Admitted?
    ensures Delayed(jobs + [row], log + [e], now, base)
  {
  }

  lemma DelayAtClaim(jobs: seq<JobRow>, log: seq<Event>, clock: nat, base: nat, after: seq<JobRow>, free: JobRow, now: nat)
    requires Delayed(jobs, log, clock, base) && now >= clock && free in jobs && Due(free, now)
    requires forall r :: r in after <==> r == ClaimedRow(free) || (r in jobs && r.id != free.id)
    ensures Delayed(after, log + [ClaimedAt(free.id, now)], now, base)
  {
    var log' := log + [ClaimedAt(free.id, now)];
    forall a, b | 0 <= a < b < |log'| && log'[a].Retried? && log'[b].ClaimedAt? && log'[a].id == log'[b].id
      ensures log'[b].at >= log'[a].at + RetryDelay(base, log'[a].attempt)
    {
      if b == |log| {
        assert log[a] in log;
        assert DelayedRow(free, log[a], clock, base);
      }
    }
    forall r, e | r in after && e in log' && e.Retried? ensures DelayedRow(r, e, now, base) {
      assert e in log;
      assert DelayedRow(free, e, clock, base);
    }
  }

  lemma DelayAtRetry(jobs: seq<JobRow>, log: seq<Event>, clock: nat, base: nat, after: seq<JobRow>, held: JobRow, now: nat, jitter: nat)
    requires Delayed(jobs, log, clock, base) && now >= clock && held in jobs && held.status.Processing? && held.attemptCount > 0
    requires forall r :: r in after <==> r == ScheduledRow(held, base, now, jitter) || (r in jobs && r.id != held.id)
    ensures Delayed(after, log + [Retried(held.id, held.attemptCount, now)], now, base)
  {
    BackoffIsExact(base, held.attemptCount, 0);
    var retried := Retried(held.id, held.attemptCount, now);
    var log' := log + [retried];
    forall r, e | r in after && e in log' && e.Retried? ensures DelayedRow(r, e, now, base) {
      if e in log { assert DelayedRow(held, e, clock, base); }
    }
    forall a, b | 0 <= a < b < |log'| && log'[a].Retried? && log'[b].ClaimedAt? && log'[a].id == log'[b].id
      ensures log'[b].at >= log'[a].at + RetryDelay(base, log'[a].attempt)
    {
      assert b < |log| && log[a].Retried? && log[b].ClaimedAt?;
    }
  }

  // ---- One step ----

  lemma AdmitStep(s: System, cfg: Config, a: Action)
    requires Inv(s, cfg) && Enabled(s, cfg, a) && a.AdmitJob?
    ensures Inv(Next(s, cfg, a), cfg)
  {
    hide QueueInv, Held, PostsCounted, Delayed, Admission, CooledNodes, TrimTo, Trimmed;
    AdmitKeepsQueue(s.queue, cfg, a.job, a.now);
    var e := Admitted(s.queue.nextJobId + 1, a.job, a.now, Trimmed(CooledNodes(s.queue, a.job, a.now), MAX_NODE_ENTRIES));
    if Admission(s.queue, cfg, a.job, a.now).Enqueued? {
      var row := JobRow(s.queue.nextJobId + 1, a.job, Pending, a.now, 0);
      RowArrives(s.queue.jobs, s.workers, row);
      PostsAtArrival(s.queue.jobs, s.workers, s.admitted, s.posts, row);
      DelayAtArrival(s.queue.jobs, s.log, s.clock, cfg.retryDelayMs, s.admitted, row, e, a.now);
    } else {
      DelaysLast(s.queue.jobs, s.log, s.clock, cfg.retryDelayMs, s.queue.jobs, e, a.now);
    }
  }

  lemma ClaimStep(s: System, cfg: Config, a: Action)
    requires Inv(s, cfg) && Enabled(s, cfg, a) && a.ClaimJob?
    ensures Inv(Next(s, cfg, a), cfg)
  {
    hide Held, PostsCounted, Delayed, Accounted, OnePerNode;
    var jobs, free := s.queue.jobs, s.queue.jobs[a.i];
    var after := jobs[a.i := ClaimedRow(free)];
    ClaimKeepsQueue(s.queue, cfg, a.i);
    AscendingIsUnique(jobs, s.queue.nextJobId);
    UpdateMembers(jobs, a.i, ClaimedRow(free), s.queue.nextJobId);
    hide IdsAscend;
    RowTaken(jobs, s.workers, a.w, after, free, ClaimedRow(free));
    PostsAtClaim(jobs, s.workers, s.admitted, s.posts, a.w, after, free);
    DelayAtClaim(jobs, s.log, s.clock, cfg.retryDelayMs, after, free, a.now);
  }

  /** The attempt limit is never found exceeded, so a claimed row is always posted. */
  lemma BeginStep(s: System, cfg: Config, a: Action)
    requires Inv(s, cfg) && Enabled(s, cfg, a) && a.Begin?
    ensures Inv(Next(s, cfg, a), cfg)
    ensures s.workers[a.w].row.attemptCount <= MaxAttempts(s.workers[a.w].row.job)
  {
    hide Delayed, Accounted, OnePerNode;
    AscendingIsUnique(s.queue.jobs, s.queue.nextJobId);
    hide IdsAscend;
    assert s.workers[a.w].row in s.queue.jobs;
    PostsAtPost(s.queue.jobs, s.workers, s.admitted, s.posts, a.w);
    WorkerPosts(s.queue.jobs, s.workers, a.w);
  }

  /** What a worker holds when it settles: a stored row, found by its id, within its attempts. */
  lemma HeldRow(s: System, cfg: Config, w: nat)
    requires Inv(s, cfg) && w in s.workers && s.workers[w].Posting?
    ensures var row := s.workers[w].row;
            && row in s.queue.jobs && row.status.Processing?
            && 0 < row.attemptCount <= MaxAttempts(row.job)
            && FindProcessing(s.queue.jobs, row.id).Some?
            && s.queue.jobs[FindProcessing(s.queue.jobs, row.id).value] == row
            && row.id in s.admitted && s.admitted[row.id] == row.job
            && IdsAscend(s.queue.jobs, s.queue.nextJobId)
  {
    HeldRowIsFound(s.queue.jobs, s.queue.nextJobId, s.workers[w].row);
  }

  lemma FinishStep(s: System, cfg: Config, a: Action)
    requires Inv(s, cfg) && Enabled(s, cfg, a) && a.Settle?
    requires a.result.RetryLater? ==> s.workers[a.w].row.attemptCount >= MaxAttempts(s.workers[a.w].row.job)
    ensures Inv(Next(s, cfg, a), cfg)
  {
    hide QueueInv, IdsAscend, Held, PostsCounted, Delayed, RemoveAt, FindProcessing, NodeOf;
    var row, jobs := s.workers[a.w].row, s.queue.jobs;
    HeldRow(s, cfg, a.w);
    var i := FindProcessing(jobs, row.id).value;
    RemoveMembers(jobs, i, s.queue.nextJobId);
    if a.result.RetryLater? { DropKeepsQueue(s.queue, cfg, row.id); }
    else { CompleteKeepsQueue(s.queue, cfg, row.id, row.job, a.result.Accepted?, a.now); }
    RowLeaves(jobs, s.workers, a.w, RemoveAt(jobs, i));
    PostsAtFinish(jobs, s.workers, s.admitted, s.posts, a.w, RemoveAt(jobs, i));
    DelaysLast(jobs, s.log, s.clock, cfg.retryDelayMs, RemoveAt(jobs, i), AcceptedUpload(row.id, row.job, a.now), a.now);
  }

  lemma RetryStep(s: System, cfg: Config, a: Action)
    requires Inv(s, cfg) && Enabled(s, cfg, a) && a.Settle? && a.result.RetryLater?
    requires s.workers[a.w].row.attemptCount < MaxAttempts(s.workers[a.w].row.job)
    ensures Inv(Next(s, cfg, a), cfg)
  {
    hide QueueInv, IdsAscend, Held, PostsCounted, Delayed, FindProcessing, Backoff;
    var row, jobs := s.workers[a.w].row, s.queue.jobs;
    HeldRow(s, cfg, a.w);
    var i := FindProcessing(jobs, row.id).value;
    var back := ScheduledRow(row, cfg.retryDelayMs, a.now, a.jitter);
    UpdateMembers(jobs, i, back, s.queue.nextJobId);
    RetryKeepsQueue(s.queue, cfg, row.id, a.now, a.jitter);
    RowReturns(jobs, s.workers, a.w, jobs[i := back], back);
    PostsAtRetry(jobs, s.workers, s.admitted, s.posts, a.w, jobs[i := back], back);
    DelayAtRetry(jobs, s.log, s.clock, cfg.retryDelayMs, jobs[i := back], row, a.now, a.jitter);
  }

  lemma SweepStep(s: System, cfg: Config, a: Action)
    requires Inv(s, cfg) && Enabled(s, cfg, a) && a.Sweep?
    ensures Inv(Next(s, cfg, a), cfg)
  {
    hide QueueInv, Held, PostsCounted, Delayed;
    SweepKeepsQueue(s.queue, cfg, a.now);
    DelaysLast(s.queue.jobs, s.log, s.clock, cfg.retryDelayMs, s.queue.jobs, ClaimedAt(0, a.now), a.now);
  }

  lemma StepKeepsInv(s: System, cfg: Config, a: Action)
    requires Inv(s, cfg) && Enabled(s, cfg, a)
    ensures Inv(Next(s, cfg, a), cfg)
  {
    hide Inv, Next;
    match a
    case AdmitJob(_, _) => AdmitStep(s, cfg, a);
    case ClaimJob(_, _, _) => ClaimStep(s, cfg, a);
    case Begin(_) => BeginStep(s, cfg, a);
    case Settle(w, result, _, _) =>
      if result.RetryLater? && s.workers[w].row.attemptCount < MaxAttempts(s.workers[w].row.job) {
        RetryStep(s, cfg, a);
      } else {
        FinishStep(s, cfg, a);
      }
    case Sweep(_) => SweepStep(s, cfg, a);
  }

  lemma InitInv(cfg: Config)
    ensures Inv(Init(), cfg)
  {
  }

  // ---- Runs ----

  predicate Follows(s: System, cfg: Config, a: Action, s': System) {
    Enabled(s, cfg, a) && s' == Next(s, cfg, a)
  }

  predicate Run(trace: seq<System>, actions: seq<Action>, cfg: Config) {
    && |trace| == |actions| + 1
    && trace[0] == Init()
    && forall i {:trigger actions[i]} :: 0 <= i < |actions| ==> Follows(trace[i], cfg, actions[i], trace[i + 1])
  }

  lemma {:induction false} RunKeepsInv(trace: seq<System>, actions: seq<Action>, cfg: Config, i: nat)
    requires Run(trace, actions, cfg) && i < |trace|
    ensures Inv(trace[i], cfg)
  {
    hide Inv, Next;
    if i == 0 {
      InitInv(cfg);
    } else {
      RunKeepsInv(trace, actions, cfg, i - 1);
      assert Follows(trace[i - 1], cfg, actions[i - 1], trace[i]);
      StepKeepsInv(trace[i - 1], cfg, actions[i - 1]);
    }
  }

  /** At every moment of every run: ids strictly ascend, one job per node, the queue within its cap,
      every id given out is queued, completed or dropped, the node table is bounded though completion
      never trims it, and a row in processing is held by exactly one worker, snapshot equal to the row. */
  lemma QueueStaysConsistent(trace: seq<System>, actions: seq<Action>, cfg: Config, i: nat)
    requires Run(trace, actions, cfg) && i < |trace|
    ensures var q, workers := trace[i].queue, trace[i].workers;
            && (forall a, b :: 0 <= a < b < |q.jobs| ==> q.jobs[a].id < q.jobs[b].id)
            && (forall a, b :: 0 <= a < b < |q.jobs| ==> q.jobs[a].job.nodePublicKey != q.jobs[b].job.nodePublicKey)
            && |q.jobs| <= cfg.maxQueuedUploads
            && q.nextJobId == |q.jobs| + q.completed + q.dropped
            && |q.nodes.order| + |q.jobs| <= 50_000 + cfg.maxQueuedUploads
            && Valid(q.nodes)
            && (forall w :: w in workers ==> workers[w].row in q.jobs && workers[w].row.status.Processing?)
            && (forall r :: r in q.jobs && r.status.Processing? ==>
                  exists w :: w in workers && workers[w].row == r
                    && forall v :: v in workers && workers[v].row.id == r.id ==> v == w)
    ensures i < |actions| && actions[i].AdmitJob? && Admission(trace[i].queue, cfg, actions[i].job, actions[i].now).Enqueued?
            ==> |trace[i + 1].queue.nodes.order| <= 50_000
  {
    RunKeepsInv(trace, actions, cfg, i);
    HeldByOne(trace[i].queue.jobs, trace[i].workers);
    if i < |actions| && actions[i].AdmitJob? {
      assert Follows(trace[i], cfg, actions[i], trace[i + 1]);
      hide Admit, Admission, Valid, Held, PostsCounted, Delayed;
      AdmitKeepsQueue(trace[i].queue, cfg, actions[i].job, actions[i].now);
    }
  }

  lemma HeldByOne(jobs: seq<JobRow>, workers: map<nat, Worker>)
    requires Held(jobs, workers)
    ensures forall r :: r in jobs && r.status.Processing? ==>
              exists w :: w in workers && workers[w].row == r
                && forall v :: v in workers && workers[v].row.id == r.id ==> v == w
  {
    forall r | r in jobs && r.status.Processing?
      ensures exists w :: w in workers && workers[w].row == r && forall v :: v in workers && workers[v].row.id == r.id ==> v == w
    {
      var w :| w in workers && workers[w].row == r;
      assert forall v :: v in workers && workers[v].row.id == r.id ==> v == w;
    }
  }

  /** A job is posted at most max(retries allowed, 1) times, the 32-bit attempt count cannot wrap, the
      "attempt limit reached" branch is dead, and a settling worker always finds its row. */
  lemma PostsAreBounded(trace: seq<System>, actions: seq<Action>, cfg: Config, i: nat)
    requires Run(trace, actions, cfg) && i < |trace|
    ensures forall id :: id in trace[i].posts ==> id in trace[i].admitted && trace[i].posts[id] <= Max(trace[i].admitted[id].retriesAllowed, 1)
    ensures forall r :: r in trace[i].queue.jobs ==> r.attemptCount <= Max(r.job.retriesAllowed, 1) <= U32_MAX
    ensures i < |actions| && actions[i].Begin? ==> actions[i].w in trace[i + 1].workers && trace[i + 1].workers[actions[i].w].Posting?
    ensures i < |actions| && actions[i].Settle? ==> FindProcessing(trace[i].queue.jobs, trace[i].workers[actions[i].w].row.id).Some?
  {
    RunKeepsInv(trace, actions, cfg, i);
    hide Held, PostsCounted, QueueInv, Delayed;
    AttemptsBounded(trace[i], cfg);
    if i < |actions| {
      assert Follows(trace[i], cfg, actions[i], trace[i + 1]);
      if actions[i].Settle? { HeldRow(trace[i], cfg, actions[i].w); }
      if actions[i].Begin? { BeginStep(trace[i], cfg, actions[i]); }
    }
  }

  lemma AttemptsBounded(s: System, cfg: Config)
    requires Inv(s, cfg)
    ensures forall id :: id in s.posts ==> id in s.admitted && s.posts[id] <= MaxAttempts(s.admitted[id])
    ensures forall r :: r in s.queue.jobs ==> r.attemptCount <= MaxAttempts(r.job) <= U32_MAX
  {
    hide QueueInv, Delayed;
    forall r | r in s.queue.jobs ensures r.attemptCount <= MaxAttempts(r.job) {
      if r.status.Processing? {
        var w :| w in s.workers && s.workers[w].row == r;
      }
    }
  }

  /** A job whose n-th attempt failed is not claimed again before the exact doubled delay has passed. */
  lemma ClaimsWaitOutTheDelay(trace: seq<System>, actions: seq<Action>, cfg: Config, i: nat, a: nat, b: nat)
    requires Run(trace, actions, cfg) && i < |trace|
    requires a < b < |trace[i].log| && trace[i].log[a].Retried? && trace[i].log[b].ClaimedAt? && trace[i].log[a].id == trace[i].log[b].id
    ensures trace[i].log[a].attempt > 0
    ensures trace[i].log[b].at >= trace[i].log[a].at + Min(cfg.retryDelayMs * Power2(trace[i].log[a].attempt - 1), MAX_BACKOFF_MS)
  {
    RunKeepsInv(trace, actions, cfg, i);
  }
}
