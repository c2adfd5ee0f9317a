/**
 How large the table of node records grows: admission trims it, completion inserts
 without trimming.
 */
module NodeTableLaws {
  import opened Common
  import opened IndexMaps
  import opened UploadQueue
  import opened UploadRuns

  function QueuedKeys(jobs: seq<JobRow>): set<string> {
    set r | r in jobs :: r.job.nodePublicKey
  }

  /** The nodes the queue knows of: on record or queued. */
  function KnownKeys(q: Queue): set<string> {
    q.nodes.values.Keys + QueuedKeys(q.jobs)
  }

  /** The cap of the table plus the jobs that may wait while another is admitted. */
  function MostRecords(cfg: Config): nat {
    MAX_NODE_ENTRIES + Max(cfg.maxQueuedUploads, 1) - 1
  }

  // ---- Counting ----

  lemma {:induction false} FewKeys(jobs: seq<JobRow>)
    ensures |QueuedKeys(jobs)| <= |jobs|
  {
    if jobs != [] {
      FewKeys(jobs[1..]);
      assert QueuedKeys(jobs) == {jobs[0].job.nodePublicKey} + QueuedKeys(jobs[1..]);
    }
  }

  lemma Subset<K>(a: set<K>, b: set<K>)
    requires a <= b
    ensures |a| <= |b|
  {
    assert b == a + (b - a);
  }

  lemma Union<K>(a: set<K>, b: set<K>)
    ensures |a + b| <= |a| + |b|
  {
    assert a + b == a + (b - a);
    Subset(b - a, b);
  }

  // ---- What every step does to the known nodes ----

  lemma NewRecordStays(nodes: NodeTable, key: string, n: NodeState)
    requires Valid(nodes)
    ensures key in Trimmed(Insert(nodes, key, n), MAX_NODE_ENTRIES) ==> key in nodes.values
  {
    InsertValid(nodes, key, n);
    var grown := Insert(nodes, key, n);
    if key !in nodes.values && |grown.order| > MAX_NODE_ENTRIES {
      var gone := grown.order[..|grown.order| - MAX_NODE_ENTRIES];
      assert grown.order[|grown.order| - 1] == key;
      assert forall i :: 0 <= i < |gone| ==> gone[i] == grown.order[i] != key;
    }
  }

  lemma AdmitKnows(q: Queue, cfg: Config, job: UploadJob, now: nat)
    requires Valid(q.nodes) && |KnownKeys(q)| <= MostRecords(cfg)
    ensures |KnownKeys(Admit(q, cfg, job, now))| <= MostRecords(cfg)
  {
    hide TooSoon, Valid, TrimTo, Trimmed, Queued;
    if Admission(q, cfg, job, now).Enqueued? {
      var key, after := job.nodePublicKey, Admit(q, cfg, job, now);
      var n := NodeOf(q.nodes, key).(cooldownUntil := Some(now + VALID_ADVERT_COOLDOWN_MS));
      InsertValid(q.nodes, key, n);
      NewRecordStays(q.nodes, key, n);
      TrimValid(CooledNodes(q, job, now), MAX_NODE_ENTRIES);
      ValidCount(after.nodes);
      assert QueuedKeys(after.jobs) == QueuedKeys(q.jobs) + {key};
      if key in after.nodes.values {
        assert KnownKeys(after) == after.nodes.values.Keys + QueuedKeys(q.jobs);
        Union(after.nodes.values.Keys, QueuedKeys(q.jobs));
        FewKeys(q.jobs);
      } else {
        Subset(KnownKeys(after), KnownKeys(q));
      }
    }
  }

  lemma ValidCount<K, V>(m: IndexMap<K, V>)
    requires Valid(m)
    ensures |m.values.Keys| == |m.order|
  {
    DistinctCount(m.order);
  }

  lemma FinishKnows(q: Queue, id: nat, job: UploadJob, accepted: bool, now: nat)
    requires FindProcessing(q.jobs, id).Some? ==> q.jobs[FindProcessing(q.jobs, id).value].job == job
    ensures KnownKeys(FinishCompleted(q, id, job, accepted, now)) <= KnownKeys(q)
    ensures KnownKeys(FinishDropped(q, id)) <= KnownKeys(q)
  {
    var i := FindProcessing(q.jobs, id);
    if i.Some? {
      assert q.jobs[i.value] in q.jobs;
      assert forall r :: r in RemoveAt(q.jobs, i.value) ==> r in q.jobs;
    }
  }

  lemma RowKnows(jobs: seq<JobRow>, i: nat, row: JobRow)
    requires i < |jobs| && row.job == jobs[i].job
    ensures QueuedKeys(jobs[i := row]) <= QueuedKeys(jobs)
  {
    forall r | r in jobs[i := row] ensures r.job.nodePublicKey in QueuedKeys(jobs) {
      assert jobs[i] in jobs;
    }
  }

  lemma SettleKnows(s: System, cfg: Config, a: Action)
    requires Inv(s, cfg) && Enabled(s, cfg, a) && a.Settle?
    ensures KnownKeys(Next(s, cfg, a).queue) <= KnownKeys(s.queue)
  {
    hide FinishCompleted, FinishDropped, FindProcessing, Backoff, QueueInv, Held, PostsCounted, Delayed, QueuedKeys;
    var row := s.workers[a.w].row;
    HeldRow(s, cfg, a.w);
    FinishKnows(s.queue, row.id, row.job, a.result.Accepted?, a.now);
    RowKnows(s.queue.jobs, FindProcessing(s.queue.jobs, row.id).value, ScheduledRow(row, cfg.retryDelayMs, a.now, a.jitter));
  }

  lemma OtherKnows(s: System, cfg: Config, a: Action)
    requires Inv(s, cfg) && Enabled(s, cfg, a) && (a.ClaimJob? || a.Begin? || a.Sweep?)
    ensures KnownKeys(Next(s, cfg, a).queue) <= KnownKeys(s.queue)
  {
    hide QueueInv, Held, PostsCounted, Delayed, QueuedKeys;
    if a.ClaimJob? { RowKnows(s.queue.jobs, a.i, ClaimedRow(s.queue.jobs[a.i])); }
    if a.Begin? { BeginStep(s, cfg, a); }
  }

  lemma StepKnows(s: System, cfg: Config, a: Action)
    requires Inv(s, cfg) && Enabled(s, cfg, a) && |KnownKeys(s.queue)| <= MostRecords(cfg)
    ensures |KnownKeys(Next(s, cfg, a).queue)| <= MostRecords(cfg)
  {
    hide Held, PostsCounted, Delayed, IdsAscend, OnePerNode, Admit, KnownKeys, MostRecords, Admissions, LogKnown;
    if a.AdmitJob? {
      AdmitKnows(s.queue, cfg, a.job, a.now);
    } else {
      if a.Settle? { SettleKnows(s, cfg, a); } else { OtherKnows(s, cfg, a); }
      Subset(KnownKeys(Next(s, cfg, a).queue), KnownKeys(s.queue));
    }
  }

  lemma {:induction false} RunKnows(trace: seq<System>, actions: seq<Action>, cfg: Config, i: nat)
    requires Run(trace, actions, cfg) && i < |trace|
    ensures |KnownKeys(trace[i].queue)| <= MostRecords(cfg)
  {
    if i == 0 {
      assert KnownKeys(trace[0].queue) == {};
    } else {
      hide Inv, Next, KnownKeys;
      RunKnows(trace, actions, cfg, i - 1);
      RunKeepsInv(trace, actions, cfg, i - 1);
      assert Follows(trace[i - 1], cfg, actions[i - 1], trace[i]);
      StepKnows(trace[i - 1], cfg, actions[i - 1]);
    }
  }

  /** In no run are there more node records than the cap and one less than the queue holds jobs. */
  lemma TableIsBounded(trace: seq<System>, actions: seq<Action>, cfg: Config, i: nat)
    requires Run(trace, actions, cfg) && i < |trace|
    ensures |trace[i].queue.nodes.order| <= 50_000 + Max(cfg.maxQueuedUploads, 1) - 1
  {
    RunKnows(trace, actions, cfg, i);
    RunKeepsInv(trace, actions, cfg, i);
    hide Run;
    ValidCount(trace[i].queue.nodes);
    Subset(trace[i].queue.nodes.values.Keys, KnownKeys(trace[i].queue));
  }

  /** A completion leaves the table over its cap exactly when it was over already, or was full and the
      completed job's record was gone. */
  lemma CompletionOverflows(q: Queue, id: nat, job: UploadJob, accepted: bool, now: nat)
    requires Valid(q.nodes)
    ensures |FinishCompleted(q, id, job, accepted, now).nodes.order| > 50_000
       <==> || |q.nodes.order| > 50_000
            || (|q.nodes.order| == 50_000 && job.nodePublicKey !in q.nodes.values && FindProcessing(q.jobs, id).Some?)
  {
    InsertValid(q.nodes, job.nodePublicKey, NodeState(None, None, None));
  }

  /** An admission evicts exactly as many records as the table is over its cap once the new one is in: for a
      node not on record, more than the one it makes room for exactly when the table was over before. */
  lemma AdmissionEvicts(q: Queue, job: UploadJob, now: nat)
    requires Valid(q.nodes)
    ensures var added := if job.nodePublicKey in q.nodes.values then 0 else 1;
            |Trimmed(CooledNodes(q, job, now), MAX_NODE_ENTRIES)| == Max(|q.nodes.order| + added - MAX_NODE_ENTRIES, 0)
    ensures job.nodePublicKey !in q.nodes.values ==>
              (|Trimmed(CooledNodes(q, job, now), MAX_NODE_ENTRIES)| > 1 <==> |q.nodes.order| > MAX_NODE_ENTRIES)
  {
    var n := NodeOf(q.nodes, job.nodePublicKey).(cooldownUntil := Some(now + VALID_ADVERT_COOLDOWN_MS));
    InsertValid(q.nodes, job.nodePublicKey, n);
    var grown := CooledNodes(q, job, now);
    if |grown.order| > MAX_NODE_ENTRIES {
      DistinctCount(grown.order[..|grown.order| - MAX_NODE_ENTRIES]);
    }
  }

  lemma StepGrowth(s: System, cfg: Config, a: Action)
    requires Inv(s, cfg) && Enabled(s, cfg, a)
    ensures var t := Next(s, cfg, a);
            && t.queue.completed >= s.queue.completed
            && (|t.queue.nodes.order| <= MAX_NODE_ENTRIES
                || |t.queue.nodes.order| <= |s.queue.nodes.order| + t.queue.completed - s.queue.completed)
  {
    hide Held, PostsCounted, Delayed, IdsAscend, OnePerNode, Admissions, LogKnown, Admission, CooledNodes, NodeOf, FindProcessing;
    match a
    case AdmitJob(job, now) => AdmitKeepsQueue(s.queue, cfg, job, now);
    case Begin(_) => BeginStep(s, cfg, a);
    case Sweep(now) => KeepValid(s.queue.nodes, LiveNodes(s.queue.nodes, now));
    case _ =>
  }

  lemma GrowthAt(trace: seq<System>, actions: seq<Action>, cfg: Config, j: nat)
    requires Run(trace, actions, cfg) && 0 < j < |trace|
    ensures trace[j].queue.completed >= trace[j - 1].queue.completed
    ensures || |trace[j].queue.nodes.order| <= MAX_NODE_ENTRIES
            || |trace[j].queue.nodes.order| <= |trace[j - 1].queue.nodes.order| + trace[j].queue.completed - trace[j - 1].queue.completed
  {
    hide Inv, Next;
    RunKeepsInv(trace, actions, cfg, j - 1);
    assert Follows(trace[j - 1], cfg, actions[j - 1], trace[j]);
    StepGrowth(trace[j - 1], cfg, actions[j - 1]);
  }

  /** Since any moment at which the table was within its cap, such as right after an enqueue, it has grown
      past the cap by at most the jobs completed since. */
  lemma {:induction false} OverflowIsCompletions(trace: seq<System>, actions: seq<Action>, cfg: Config, i: nat, j: nat)
    requires Run(trace, actions, cfg) && i <= j < |trace| && |trace[i].queue.nodes.order| <= MAX_NODE_ENTRIES
    ensures trace[j].queue.completed >= trace[i].queue.completed
    ensures |trace[j].queue.nodes.order| <= MAX_NODE_ENTRIES + trace[j].queue.completed - trace[i].queue.completed
    decreases j
  {
    if i < j {
      hide Run;
      OverflowIsCompletions(trace, actions, cfg, i, j - 1);
      GrowthAt(trace, actions, cfg, j);
    }
  }
}
