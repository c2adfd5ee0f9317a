/** Runs of the upload queue that fill the table of node records as far as it ever gets. */
module NodeTableRuns {
  import opened Common
  import opened IndexMaps
  import opened UploadQueue
  import opened UploadRuns
  import opened CooldownLaws
  import opened NodeTableLaws

  // ---- Runs, one step at a time ----

  /** A run to `s` in which only the first `workers` workers ever claim. */
  predicate Reaches(trace: seq<System>, actions: seq<Action>, cfg: Config, workers: nat, s: System) {
    && Run(trace, actions, cfg) && trace[|trace| - 1] == s
    && forall i :: 0 <= i < |actions| && actions[i].ClaimJob? ==> actions[i].w < workers
  }

  lemma OneMore(trace: seq<System>, actions: seq<Action>, cfg: Config, workers: nat, s: System, a: Action)
    returns (trace': seq<System>, actions': seq<Action>)
    requires Reaches(trace, actions, cfg, workers, s) && Inv(s, cfg) && Enabled(s, cfg, a) && (a.ClaimJob? ==> a.w < workers)
    ensures Reaches(trace', actions', cfg, workers, Next(s, cfg, a)) && Inv(Next(s, cfg, a), cfg)
  {
    hide Inv, Next;
    StepKeepsInv(s, cfg, a);
    trace', actions' := trace + [Next(s, cfg, a)], actions + [a];
    forall i | 0 <= i < |actions'| ensures Follows(trace'[i], cfg, actions'[i], trace'[i + 1]) {
      if i < |actions| { assert Follows(trace[i], cfg, actions[i], trace[i + 1]); }
    }
  }

  lemma StartRun(cfg: Config, workers: nat) returns (trace: seq<System>, actions: seq<Action>)
    ensures Reaches(trace, actions, cfg, workers, Init()) && Inv(Init(), cfg)
  {
    hide Inv, Init, Next;
    trace, actions := [Init()], [];
    InitInv(cfg);
  }

  // ---- The steps these runs take ----

  /** The last `limit` of `s`. */
  function Recent(s: seq<string>, limit: nat): seq<string> {
    if |s| <= limit then s else s[|s| - limit..]
  }

  function WithKey(order: seq<string>, key: string): seq<string> {
    if key in order then order else order + [key]
  }

  lemma OnRecord(s: System, cfg: Config, key: string)
    requires Inv(s, cfg)
    ensures key in s.queue.nodes.order <==> key in s.queue.nodes.values
  {
    assert key in s.queue.nodes.order <==> key in Items(s.queue.nodes.order);
  }

  lemma AdmittedOrder(q: Queue, cfg: Config, job: UploadJob, now: nat)
    requires Admission(q, cfg, job, now).Enqueued?
    requires job.nodePublicKey in q.nodes.order <==> job.nodePublicKey in q.nodes.values
    ensures Admit(q, cfg, job, now).nodes.order == Recent(WithKey(q.nodes.order, job.nodePublicKey), MAX_NODE_ENTRIES)
  {
    hide TooSoon, Queued, Admission;
  }

  lemma AdmitOne(s: System, cfg: Config, job: UploadJob)
    requires Inv(s, cfg) && Admission(s.queue, cfg, job, s.clock).Enqueued?
    ensures var a := AdmitJob(job, s.clock);
            var t := Next(s, cfg, a);
            && Enabled(s, cfg, a) && t.workers == s.workers && t.clock == s.clock
            && t.queue.jobs == s.queue.jobs + [JobRow(s.queue.nextJobId + 1, job, Pending, s.clock, 0)]
            && t.queue.nodes == Admit(s.queue, cfg, job, s.clock).nodes
            && t.queue.nodes.order == Recent(WithKey(s.queue.nodes.order, job.nodePublicKey), MAX_NODE_ENTRIES)
  {
    hide Inv, TooSoon, Queued, Admission, TrimTo, Trimmed;
    OnRecord(s, cfg, job.nodePublicKey);
    AdmittedOrder(s.queue, cfg, job, s.clock);
  }

  /** Nothing waits but the row at `k`. */
  predicate OnlyDue(jobs: seq<JobRow>, k: nat, now: nat) {
    k < |jobs| && Due(jobs[k], now) && forall i :: 0 <= i < |jobs| && i != k ==> !Due(jobs[i], now)
  }

  lemma ClaimOne(s: System, cfg: Config, w: nat, k: nat, now: nat)
    requires now >= s.clock && w !in s.workers && IsNextDue(s.queue.jobs, now, k)
    ensures var a := ClaimJob(w, k, now);
            var t := Next(s, cfg, a);
            && Enabled(s, cfg, a) && t.clock == now && t.queue.nodes == s.queue.nodes
            && t.queue.jobs == s.queue.jobs[k := ClaimedRow(s.queue.jobs[k])]
            && t.workers == s.workers[w := Claimed(ClaimedRow(s.queue.jobs[k]))]
  {
    hide IsNextDue;
  }

  /** A claimed row is posted at once. */
  lemma ClaimAndPost(trace: seq<System>, actions: seq<Action>, cfg: Config, workers: nat, s: System, w: nat, k: nat, now: nat)
    returns (trace': seq<System>, actions': seq<Action>, t: System)
    requires Reaches(trace, actions, cfg, workers, s) && Inv(s, cfg) && w < workers
    requires now >= s.clock && w !in s.workers && IsNextDue(s.queue.jobs, now, k)
    ensures Reaches(trace', actions', cfg, workers, t) && Inv(t, cfg)
    ensures t.clock == now && t.queue.nodes == s.queue.nodes
    ensures t.queue.jobs == s.queue.jobs[k := ClaimedRow(s.queue.jobs[k])]
    ensures t.workers == s.workers[w := Posting(ClaimedRow(s.queue.jobs[k]))]
  {
    hide Reaches, Inv, IsNextDue;
    ClaimOne(s, cfg, w, k, now);
    trace', actions' := OneMore(trace, actions, cfg, workers, s, ClaimJob(w, k, now));
    var s1 := Next(s, cfg, ClaimJob(w, k, now));
    BeginStep(s1, cfg, Begin(w));
    trace', actions' := OneMore(trace', actions', cfg, workers, s1, Begin(w));
    t := Next(s1, cfg, Begin(w));
  }

  /** A job let in while nothing else is due is claimed and posted by an idle worker. */
  lemma StartJob(trace: seq<System>, actions: seq<Action>, cfg: Config, workers: nat, s: System, job: UploadJob, w: nat)
    returns (trace': seq<System>, actions': seq<Action>, t: System)
    requires Reaches(trace, actions, cfg, workers, s) && Inv(s, cfg) && w < workers && w !in s.workers
    requires Admission(s.queue, cfg, job, s.clock).Enqueued?
    requires forall i :: 0 <= i < |s.queue.jobs| ==> !Due(s.queue.jobs[i], s.clock)
    ensures Reaches(trace', actions', cfg, workers, t) && Inv(t, cfg) && t.clock == s.clock
    ensures |t.queue.jobs| == |s.queue.jobs| + 1 && t.queue.jobs[..|s.queue.jobs|] == s.queue.jobs
    ensures var row := t.queue.jobs[|s.queue.jobs|];
            row.job == job && row.status.Processing? && row.attemptCount == 1 && t.workers == s.workers[w := Posting(row)]
    ensures t.queue.nodes == Admit(s.queue, cfg, job, s.clock).nodes
    ensures t.queue.nodes.order == Recent(WithKey(s.queue.nodes.order, job.nodePublicKey), MAX_NODE_ENTRIES)
  {
    hide Reaches, Inv, Admission, Admit;
    var n := |s.queue.jobs|;
    AdmitOne(s, cfg, job);
    trace', actions' := OneMore(trace, actions, cfg, workers, s, AdmitJob(job, s.clock));
    t := Next(s, cfg, AdmitJob(job, s.clock));
    hide Next;
    LastIsNext(s.queue.jobs, t.queue.jobs[n], s.clock);
    trace', actions', t := ClaimAndPost(trace', actions', cfg, workers, t, w, n, s.clock);
  }

  lemma LastIsNext(jobs: seq<JobRow>, row: JobRow, now: nat)
    requires Due(row, now) && forall i :: 0 <= i < |jobs| ==> !Due(jobs[i], now)
    ensures IsNextDue(jobs + [row], now, |jobs|)
  {
  }

  lemma JitterIsDrawn(backoff: nat)
    ensures 0 < JitterMax(backoff)
  {
  }

  lemma OneIndex(jobs: seq<JobRow>, nextJobId: nat, i: nat, j: nat)
    requires IdsAscend(jobs, nextJobId) && i < |jobs| && j < |jobs| && jobs[i].id == jobs[j].id
    ensures i == j
  {
  }

  /** What a worker posts is found at its place in the queue. */
  lemma PostedAt(s: System, cfg: Config, w: nat, k: nat)
    requires Inv(s, cfg) && w in s.workers && k < |s.queue.jobs| && s.workers[w] == Posting(s.queue.jobs[k])
    ensures FindProcessing(s.queue.jobs, s.queue.jobs[k].id) == Some(k)
    ensures s.queue.jobs[k].attemptCount > 0
  {
    HeldRow(s, cfg, w);
    OneIndex(s.queue.jobs, s.queue.nextJobId, k, FindProcessing(s.queue.jobs, s.queue.jobs[k].id).value);
  }

  /** A worker's job is accepted. */
  lemma AcceptJob(trace: seq<System>, actions: seq<Action>, cfg: Config, workers: nat, s: System, w: nat, k: nat)
    returns (trace': seq<System>, actions': seq<Action>, t: System)
    requires Reaches(trace, actions, cfg, workers, s) && Inv(s, cfg)
    requires w in s.workers && k < |s.queue.jobs| && s.workers[w] == Posting(s.queue.jobs[k])
    ensures Reaches(trace', actions', cfg, workers, t) && Inv(t, cfg) && t.clock == s.clock
    ensures t.queue.jobs == RemoveAt(s.queue.jobs, k) && t.workers == s.workers - {w}
    ensures var job := s.queue.jobs[k].job;
            && t.queue.nodes == Insert(s.queue.nodes, job.nodePublicKey,
                                       NodeState(None, Some(job.advertTimestamp), Some(s.clock + SEEN_ADVERT_TTL_MS)))
            && t.queue.nodes.order == WithKey(s.queue.nodes.order, job.nodePublicKey)
  {
    hide Reaches, Inv, FindProcessing, Backoff, JitterMax;
    JitterIsDrawn(Backoff(cfg.retryDelayMs, s.queue.jobs[k].attemptCount));
    PostedAt(s, cfg, w, k);
    OnRecord(s, cfg, s.queue.jobs[k].job.nodePublicKey);
    var a := Settle(w, Accepted, s.clock, 0);
    trace', actions' := OneMore(trace, actions, cfg, workers, s, a);
    t := Next(s, cfg, a);
  }

  /** A worker's first post of a job with attempts to spare fails. */
  lemma FailJob(trace: seq<System>, actions: seq<Action>, cfg: Config, workers: nat, s: System, w: nat, k: nat)
    returns (trace': seq<System>, actions': seq<Action>, t: System)
    requires Reaches(trace, actions, cfg, workers, s) && Inv(s, cfg)
    requires w in s.workers && k < |s.queue.jobs| && s.workers[w] == Posting(s.queue.jobs[k])
    requires s.queue.jobs[k].attemptCount < MaxAttempts(s.queue.jobs[k].job)
    ensures Reaches(trace', actions', cfg, workers, t) && Inv(t, cfg) && t.clock == s.clock
    ensures t.queue.jobs == s.queue.jobs[k := ScheduledRow(s.queue.jobs[k], cfg.retryDelayMs, s.clock, 0)]
    ensures t.workers == s.workers - {w} && t.queue.nodes == s.queue.nodes
  {
    hide Reaches, Inv, FindProcessing, Backoff, JitterMax, MaxAttempts;
    JitterIsDrawn(Backoff(cfg.retryDelayMs, s.queue.jobs[k].attemptCount));
    PostedAt(s, cfg, w, k);
    var a := Settle(w, RetryLater, s.clock, 0);
    trace', actions' := OneMore(trace, actions, cfg, workers, s, a);
    t := Next(s, cfg, a);
  }

  lemma FreshIsEnqueued(s: System, cfg: Config, job: UploadJob)
    requires Inv(s, cfg) && |s.queue.jobs| < cfg.maxQueuedUploads
    requires job.nodePublicKey !in s.queue.nodes.order && !Queued(s.queue.jobs, job.nodePublicKey)
    ensures Admission(s.queue, cfg, job, s.clock).Enqueued?
  {
    OnRecord(s, cfg, job.nodePublicKey);
    hide Inv;
  }

  // ---- Jobs that are kept waiting ----

  function NewJob(key: string, attempts: u32): UploadJob {
    UploadJob(key, 0, attempts, "")
  }

  /** The queue holds one job for each of `keys` and none of them is due. With `parked`, all wait for their
      second attempt at that time and every worker is idle; otherwise worker `first + i` is posting the i-th. */
  ghost predicate Waiting(s: System, keys: seq<string>, first: nat, parked: Option<nat>) {
    && |s.queue.jobs| == |keys|
    && (forall i :: 0 <= i < |keys| ==> s.queue.jobs[i].job.nodePublicKey == keys[i] && s.queue.jobs[i].job.advertTimestamp == 0)
    && match parked
       case None =>
         && (forall i :: 0 <= i < |keys| ==> s.queue.jobs[i].status.Processing?)
         && (forall w :: w in s.workers <==> first <= w < first + |keys|)
         && (forall i :: 0 <= i < |keys| ==> s.workers[first + i] == Posting(s.queue.jobs[i]))
       case Some(due) =>
         && s.workers == map[]
         && forall i :: 0 <= i < |keys| ==>
              s.queue.jobs[i].status.Retry? && s.queue.jobs[i].nextAttemptAt == due
              && s.queue.jobs[i].attemptCount == 1 && s.queue.jobs[i].job.retriesAllowed == 2
  }

  /** Every acceptance on record is of an advert with timestamp zero. */
  predicate Plain(nodes: NodeTable) {
    forall k :: k in nodes.values && nodes.values[k].acceptedTimestamp.Some? ==> nodes.values[k].acceptedTimestamp.value == 0
  }

  lemma PlainAfterAdmit(q: Queue, cfg: Config, job: UploadJob, now: nat)
    requires Valid(q.nodes) && Plain(q.nodes) && Admission(q, cfg, job, now).Enqueued?
    ensures Plain(Admit(q, cfg, job, now).nodes)
  {
    hide Valid, TooSoon, Queued, TrimTo, Trimmed;
    var n := NodeOf(q.nodes, job.nodePublicKey).(cooldownUntil := Some(now + VALID_ADVERT_COOLDOWN_MS));
    InsertValid(q.nodes, job.nodePublicKey, n);
    TrimValid(CooledNodes(q, job, now), MAX_NODE_ENTRIES);
  }

  /** Whether the next kept job is left in a worker's hands or parked, and which worker takes it. */
  function NextWorker(keys: seq<string>, parked: Option<nat>): nat {
    if parked.Some? then 0 else |keys|
  }

  predicate MayWait(cfg: Config, workers: nat, clock: nat, parked: Option<nat>, held: nat) {
    match parked
    case None => held < workers
    case Some(due) => 0 < workers && clock < due == clock + Backoff(cfg.retryDelayMs, 1)
  }

  lemma NoneIsDue(s: System, keys: seq<string>, parked: Option<nat>, key: string)
    requires Waiting(s, keys, 0, parked) && key !in keys && (parked.Some? ==> s.clock < parked.value)
    ensures !Queued(s.queue.jobs, key) && NextWorker(keys, parked) !in s.workers
    ensures forall i :: 0 <= i < |s.queue.jobs| ==> !Due(s.queue.jobs[i], s.clock)
  {
  }

  lemma ValidNodes(s: System, cfg: Config)
    requires Inv(s, cfg)
    ensures Valid(s.queue.nodes)
  {
  }

  /** One more job is started; the others go on waiting. */
  lemma StartAnother(
    trace: seq<System>, actions: seq<Action>, cfg: Config, workers: nat, s: System, keys: seq<string>, parked: Option<nat>, held: nat,
    job: UploadJob) returns (trace': seq<System>, actions': seq<Action>, t: System)
    requires Reaches(trace, actions, cfg, workers, s) && Inv(s, cfg) && Waiting(s, keys, 0, parked) && Plain(s.queue.nodes)
    requires MayWait(cfg, workers, s.clock, parked, held) && |keys| <= held && |keys| < cfg.maxQueuedUploads
    requires job.nodePublicKey !in keys && job.nodePublicKey !in s.queue.nodes.order && job.advertTimestamp == 0
    ensures Reaches(trace', actions', cfg, workers, t) && Inv(t, cfg) && t.clock == s.clock && Plain(t.queue.nodes)
    ensures |t.queue.jobs| == |s.queue.jobs| + 1 == |keys| + 1 && t.queue.jobs[..|keys|] == s.queue.jobs
    ensures var row, w := t.queue.jobs[|keys|], NextWorker(keys, parked);
            && row.job == job && row.status.Processing? && row.attemptCount == 1
            && w !in s.workers && t.workers == s.workers[w := Posting(row)]
    ensures t.queue.nodes.order == Recent(s.queue.nodes.order + [job.nodePublicKey], MAX_NODE_ENTRIES)
  {
    NoneIsDue(s, keys, parked, job.nodePublicKey);
    ValidNodes(s, cfg);
    assert |s.queue.jobs| == |keys|;
    hide Reaches, Inv, Waiting, Admission, Admit, Plain, Recent, Backoff, Queued, Valid;
    FreshIsEnqueued(s, cfg, job);
    PlainAfterAdmit(s.queue, cfg, job, s.clock);
    trace', actions', t := StartJob(trace, actions, cfg, workers, s, job, NextWorker(keys, parked));
  }

  /** A node passes through: its job is accepted, the kept jobs go on waiting. */
  lemma PassOne(
    trace: seq<System>, actions: seq<Action>, cfg: Config, workers: nat, s: System, keys: seq<string>, parked: Option<nat>, held: nat,
    key: string) returns (trace': seq<System>, actions': seq<Action>, t: System)
    requires Reaches(trace, actions, cfg, workers, s) && Inv(s, cfg) && Waiting(s, keys, 0, parked) && Plain(s.queue.nodes)
    requires MayWait(cfg, workers, s.clock, parked, held) && |keys| <= held && |keys| < cfg.maxQueuedUploads
    requires key !in keys && key !in s.queue.nodes.order
    requires key in Recent(s.queue.nodes.order + [key], MAX_NODE_ENTRIES)
    ensures Reaches(trace', actions', cfg, workers, t) && Inv(t, cfg) && Waiting(t, keys, 0, parked) && Plain(t.queue.nodes)
    ensures t.clock == s.clock && t.queue.nodes.order == Recent(s.queue.nodes.order + [key], MAX_NODE_ENTRIES)
  {
    hide Reaches, Inv, Waiting, Plain, Recent, MayWait;
    trace', actions', t := StartAnother(trace, actions, cfg, workers, s, keys, parked, held, NewJob(key, 1));
    var s1 := t;
    trace', actions', t := AcceptJob(trace', actions', cfg, workers, s1, NextWorker(keys, parked), |keys|);
    assert t.queue.jobs == s1.queue.jobs[..|keys|] == s.queue.jobs;
    assert t.workers == s.workers;
    SameWaiting(s, t, keys, parked);
    AcceptedPlain(s1.queue.nodes, key, s1.clock);
  }

  lemma SameWaiting(s: System, t: System, keys: seq<string>, parked: Option<nat>)
    requires Waiting(s, keys, 0, parked) && t.queue.jobs == s.queue.jobs && t.workers == s.workers
    ensures Waiting(t, keys, 0, parked)
  {
  }

  lemma AcceptedPlain(nodes: NodeTable, key: string, now: nat)
    requires Plain(nodes)
    ensures Plain(Insert(nodes, key, NodeState(None, Some(0), Some(now + SEEN_ADVERT_TTL_MS))))
  {
  }

  /** One more job is kept: left with its worker, or parked after its first post failed. */
  lemma KeepOne(
    trace: seq<System>, actions: seq<Action>, cfg: Config, workers: nat, s: System, keys: seq<string>, parked: Option<nat>, held: nat,
    key: string) returns (trace': seq<System>, actions': seq<Action>, t: System)
    requires Reaches(trace, actions, cfg, workers, s) && Inv(s, cfg) && Waiting(s, keys, 0, parked) && Plain(s.queue.nodes)
    requires MayWait(cfg, workers, s.clock, parked, held) && |keys| < held < cfg.maxQueuedUploads
    requires key !in keys && key !in s.queue.nodes.order
    ensures Reaches(trace', actions', cfg, workers, t) && Inv(t, cfg) && Waiting(t, keys + [key], 0, parked) && Plain(t.queue.nodes)
    ensures t.clock == s.clock && t.queue.nodes.order == Recent(s.queue.nodes.order + [key], MAX_NODE_ENTRIES)
  {
    hide Reaches, Inv, Plain, Recent, Backoff;
    trace', actions', t := StartAnother(trace, actions, cfg, workers, s, keys, parked, held, NewJob(key, 2));
    var n := |keys|;
    assert t.queue.jobs == s.queue.jobs + [t.queue.jobs[n]];
    if parked.Some? {
      var s1 := t;
      trace', actions', t := FailJob(trace', actions', cfg, workers, s1, 0, n);
      assert t.workers == map[];
      assert forall i :: 0 <= i < n ==> t.queue.jobs[i] == s.queue.jobs[i];
    }
  }

  // ---- Filling the table ----

  /** All of `names` up to `n` admitted in turn; the first `held` of them are kept, each later one is accepted
      before the next comes. */
  lemma {:induction false} AdmittedRun(cfg: Config, workers: nat, names: seq<string>, parked: Option<nat>, held: nat, n: nat)
    returns (trace: seq<System>, actions: seq<Action>, s: System)
    requires Distinct(names) && n <= |names| && held < cfg.maxQueuedUploads && MayWait(cfg, workers, 0, parked, held)
    ensures Reaches(trace, actions, cfg, workers, s) && Inv(s, cfg) && s.clock == 0 && Plain(s.queue.nodes)
    ensures Waiting(s, names[..Min(n, held)], 0, parked) && s.queue.nodes.order == Recent(names[..n], MAX_NODE_ENTRIES)
  {
    if n == 0 {
      trace, actions := StartRun(cfg, workers);
      s := Init();
    } else {
      var before := names[..Min(n - 1, held)];
      trace, actions, s := AdmittedRun(cfg, workers, names, parked, held, n - 1);
      NextName(names, held, n);
      hide Reaches, Inv, Waiting, Plain, Recent, MayWait;
      if n > held {
        trace, actions, s := PassOne(trace, actions, cfg, workers, s, before, parked, held, names[n - 1]);
      } else {
        trace, actions, s := KeepOne(trace, actions, cfg, workers, s, before, parked, held, names[n - 1]);
      }
    }
  }

  lemma NextName(names: seq<string>, held: nat, n: nat)
    requires Distinct(names) && 0 < n <= |names|
    ensures names[n - 1] !in names[..Min(n - 1, held)] && names[n - 1] !in Recent(names[..n - 1], MAX_NODE_ENTRIES)
    ensures Recent(Recent(names[..n - 1], MAX_NODE_ENTRIES) + [names[n - 1]], MAX_NODE_ENTRIES) == Recent(names[..n], MAX_NODE_ENTRIES)
    ensures names[n - 1] in Recent(names[..n], MAX_NODE_ENTRIES)
    ensures n <= held ==> names[..Min(n - 1, held)] + [names[n - 1]] == names[..Min(n, held)]
    ensures n > held ==> names[..Min(n - 1, held)] == names[..Min(n, held)]
  {
    var recent := Recent(names[..n], MAX_NODE_ENTRIES);
    assert recent[|recent| - 1] == names[n - 1];
  }

  // ---- Collecting the kept jobs ----

  /** The first kept job is accepted; its node is on record no more, so its record comes on top. */
  lemma CollectOne(
    trace: seq<System>, actions: seq<Action>, cfg: Config, workers: nat, s: System, keys: seq<string>, first: nat, parked: Option<nat>)
    returns (trace': seq<System>, actions': seq<Action>, t: System)
    requires Reaches(trace, actions, cfg, workers, s) && Inv(s, cfg) && Waiting(s, keys, first, parked) && keys != []
    requires keys[0] !in s.queue.nodes.order && (parked.Some? ==> 0 < workers && s.clock <= parked.value)
    ensures Reaches(trace', actions', cfg, workers, t) && Inv(t, cfg)
    ensures Waiting(t, keys[1..], first + 1, parked) && (parked.Some? ==> t.clock <= parked.value)
    ensures t.queue.nodes.order == s.queue.nodes.order + [keys[0]]
  {
    hide Reaches, Inv;
    var s1, w := s, first;
    trace', actions' := trace, actions;
    if parked.Some? {
      FirstIsNext(s, cfg, keys, first, parked.value);
      w := 0;
      trace', actions', s1 := ClaimAndPost(trace, actions, cfg, workers, s, 0, 0, parked.value);
    }
    assert s1.workers[w] == Posting(s1.queue.jobs[0]) by { assert parked.None? ==> s.workers[first + 0] == Posting(s.queue.jobs[0]); }
    trace', actions', t := AcceptJob(trace', actions', cfg, workers, s1, w, 0);
    assert t.queue.jobs == s.queue.jobs[1..];
    RestWaits(s, t, keys, first, parked);
  }

  lemma FirstIsNext(s: System, cfg: Config, keys: seq<string>, first: nat, due: nat)
    requires Inv(s, cfg) && Waiting(s, keys, first, Some(due)) && keys != []
    ensures IsNextDue(s.queue.jobs, due, 0) && 0 !in s.workers
  {
    assert IdsAscend(s.queue.jobs, s.queue.nextJobId);
    hide Inv;
  }

  lemma RestWaits(s: System, t: System, keys: seq<string>, first: nat, parked: Option<nat>)
    requires Waiting(s, keys, first, parked) && keys != [] && t.queue.jobs == s.queue.jobs[1..]
    requires t.workers == if parked.Some? then map[] else s.workers - {first}
    ensures Waiting(t, keys[1..], first + 1, parked)
  {
    if parked.None? {
      forall i | 0 <= i < |keys| - 1 ensures t.workers[first + 1 + i] == Posting(t.queue.jobs[i]) {
        assert s.workers[first + (i + 1)] == Posting(s.queue.jobs[i + 1]);
      }
    }
  }

  lemma {:induction false} CollectedRun(
    trace: seq<System>, actions: seq<Action>, cfg: Config, workers: nat, s: System, keys: seq<string>, first: nat, parked: Option<nat>)
    returns (trace': seq<System>, actions': seq<Action>, t: System)
    requires Reaches(trace, actions, cfg, workers, s) && Inv(s, cfg) && Waiting(s, keys, first, parked)
    requires Distinct(keys) && forall k :: k in keys ==> k !in s.queue.nodes.order
    requires parked.Some? ==> 0 < workers && s.clock <= parked.value
    ensures Reaches(trace', actions', cfg, workers, t) && t.queue.nodes.order == s.queue.nodes.order + keys
    decreases |keys|
  {
    hide Reaches, Inv, Waiting;
    if keys == [] {
      trace', actions', t := trace, actions, s;
    } else {
      RestIsNew(s.queue.nodes.order, keys);
      trace', actions', t := CollectOne(trace, actions, cfg, workers, s, keys, first, parked);
      trace', actions', t := CollectedRun(trace', actions', cfg, workers, t, keys[1..], first + 1, parked);
      assert s.queue.nodes.order + keys == (s.queue.nodes.order + [keys[0]]) + keys[1..];
    }
  }

  lemma RestIsNew(order: seq<string>, keys: seq<string>)
    requires keys != [] && Distinct(keys) && forall k :: k in keys ==> k !in order
    ensures Distinct(keys[1..]) && keys[0] !in order && forall k :: k in keys[1..] ==> k !in order + [keys[0]]
  {
  }

  /** Once that many names have come, the first ones are off the record and different from the rest. */
  lemma HeldAreForgotten(names: seq<string>, held: nat)
    requires Distinct(names) && |names| == MAX_NODE_ENTRIES + held
    ensures Recent(names[..|names|], MAX_NODE_ENTRIES) == names[held..]
    ensures Distinct(names[..held]) && forall k :: k in names[..held] ==> k !in names[held..]
  {
    assert names[..|names|] == names;
    forall k | k in names[..held] ensures k !in names[held..] {
      var i :| 0 <= i < held && names[i] == k;
      assert forall j :: 0 <= j < |names| - held ==> names[held..][j] == names[held + j];
    }
  }

  /** A run that keeps `held` jobs back leaves the table that many records over its cap. */
  lemma OverflowRun(cfg: Config, workers: nat, names: seq<string>, parked: Option<nat>, held: nat)
    returns (trace: seq<System>, actions: seq<Action>, s: System)
    requires held < cfg.maxQueuedUploads && MayWait(cfg, workers, 0, parked, held)
    requires Distinct(names) && |names| == MAX_NODE_ENTRIES + held
    ensures Reaches(trace, actions, cfg, workers, s) && |s.queue.nodes.order| == MAX_NODE_ENTRIES + held
  {
    HeldAreForgotten(names, held);
    assert parked.Some? ==> 0 < workers && 0 <= parked.value;
    hide Reaches, Inv, Waiting, Recent, Distinct, MayWait, Plain;
    trace, actions, s := AdmittedRun(cfg, workers, names, parked, held, |names|);
    assert Min(|names|, held) == held;
    trace, actions, s := CollectedRun(trace, actions, cfg, workers, s, names[..held], 0, parked);
  }

  /** The bound is met: given enough different nodes, some run leaves the table at its cap plus all the jobs
      but one that the queue may hold. A single worker is enough when retries are delayed at all; without a
      delay there must be one for each of those jobs. */
  lemma TableBoundIsMet(cfg: Config, workers: nat, names: seq<string>)
    requires cfg.maxQueuedUploads > 0 && workers > 0
    requires cfg.retryDelayMs > 0 || workers >= cfg.maxQueuedUploads
    requires Distinct(names) && |names| == MostRecords(cfg)
    ensures exists trace, actions, s :: Reaches(trace, actions, cfg, workers, s) && |s.queue.nodes.order| == MostRecords(cfg)
  {
    var due := Backoff(cfg.retryDelayMs, 1);
    BackoffIsExact(cfg.retryDelayMs, 1, 0);
    hide Backoff, Reaches;
    var parked := if cfg.retryDelayMs > 0 then Some(due) else None;
    var trace, actions, s := OverflowRun(cfg, workers, names, parked, cfg.maxQueuedUploads - 1);
  }

  // ---- One worker is enough to overflow ----

  /** The oldest node on record sends a newer advert. */
  lemma NewerIsEnqueued(s: System, cfg: Config, key: string)
    requires Plain(s.queue.nodes) && CooldownsQueued(s.queue.nodes, s.queue.jobs) && s.queue.jobs == [] && cfg.maxQueuedUploads > 0
    ensures Admission(s.queue, cfg, UploadJob(key, U32_MAX, 1, ""), s.clock).Enqueued?
  {
  }

  /** The queue is idle, the table is full, and its oldest node may come again. */
  lemma FullTable(cfg: Config, workers: nat, names: seq<string>)
    returns (trace: seq<System>, actions: seq<Action>, s: System)
    requires cfg.maxQueuedUploads > 0 && workers > 0
    requires Distinct(names) && |names| == MAX_NODE_ENTRIES + 1
    ensures Reaches(trace, actions, cfg, workers, s) && Inv(s, cfg)
    ensures s.queue.jobs == [] && s.workers == map[] && s.queue.nodes.order == names[..MAX_NODE_ENTRIES]
    ensures Admission(s.queue, cfg, UploadJob(names[0], U32_MAX, 1, ""), s.clock).Enqueued?
  {
    hide Inv, Plain, Admission, CooldownsQueued;
    trace, actions, s := AdmittedRun(cfg, workers, names, None, 0, MAX_NODE_ENTRIES);
    RunKeepsCooldowns(trace, actions, cfg, |trace| - 1);
    hide Reaches;
    NewerIsEnqueued(s, cfg, names[0]);
  }

  /** The table is full; its oldest node is posted again, a new node comes and evicts it, and its completion
      brings it back. */
  lemma OneWorkerOverflows(cfg: Config, workers: nat, names: seq<string>)
    returns (trace: seq<System>, actions: seq<Action>, t: System)
    requires cfg.maxQueuedUploads > 1 && workers > 0
    requires Distinct(names) && |names| == MAX_NODE_ENTRIES + 1
    ensures Reaches(trace, actions, cfg, workers, t) && |t.queue.nodes.order| == MAX_NODE_ENTRIES + 1
  {
    hide Reaches, Inv, Waiting, Plain, Admission, Admit, Recent, CooldownsQueued;
    var full := names[..MAX_NODE_ENTRIES];
    var s;
    trace, actions, s := FullTable(cfg, workers, names);
    TurnOver(names);
    trace, actions, t := StartJob(trace, actions, cfg, workers, s, UploadJob(names[0], U32_MAX, 1, ""), 0);
    assert t.queue.nodes.order == full;
    var s1 := t;
    FreshIsEnqueued(s1, cfg, NewJob(names[MAX_NODE_ENTRIES], 1));
    AdmitOne(s1, cfg, NewJob(names[MAX_NODE_ENTRIES], 1));
    var a := AdmitJob(NewJob(names[MAX_NODE_ENTRIES], 1), s1.clock);
    trace, actions := OneMore(trace, actions, cfg, workers, s1, a);
    var s2 := Next(s1, cfg, a);
    hide Next;
    trace, actions, t := AcceptJob(trace, actions, cfg, workers, s2, 0, 0);
  }

  lemma TurnOver(names: seq<string>)
    requires Distinct(names) && |names| == MAX_NODE_ENTRIES + 1
    ensures var full, key := names[..MAX_NODE_ENTRIES], names[MAX_NODE_ENTRIES];
            && Recent(full, MAX_NODE_ENTRIES) == full
            && names[0] in full && Recent(WithKey(full, names[0]), MAX_NODE_ENTRIES) == full
            && key !in full && key != names[0] && Recent(WithKey(full, key), MAX_NODE_ENTRIES) == names[1..]
            && names[0] !in names[1..]
  {
    var full := names[..MAX_NODE_ENTRIES];
    assert full[0] == names[0];
    assert (full + [names[MAX_NODE_ENTRIES]])[1..] == names[1..];
  }

  /** For every number of workers the table can exceed its cap exactly when the queue may hold two jobs. */
  lemma OverflowNeedsTwoJobs(cfg: Config, workers: nat, names: seq<string>)
    requires cfg.maxQueuedUploads > 0 && workers > 0
    requires Distinct(names) && |names| == MAX_NODE_ENTRIES + 1
    ensures (exists trace, actions, s :: Reaches(trace, actions, cfg, workers, s) && |s.queue.nodes.order| > 50_000)
       <==> cfg.maxQueuedUploads > 1
  {
    if cfg.maxQueuedUploads > 1 {
      var trace, actions, s := OneWorkerOverflows(cfg, workers, names);
    }
    forall trace, actions, s | Reaches(trace, actions, cfg, workers, s) ensures |s.queue.nodes.order| <= MostRecords(cfg) {
      TableIsBounded(trace, actions, cfg, |trace| - 1);
    }
    hide Reaches;
  }
}
