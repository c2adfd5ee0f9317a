/**
 What the upload queue remembers of accepted uploads. The rule that two accepted
 uploads of a node are spaced apart is enforced at admission only; that it holds
 between acceptances needs the node records, one job per node and the sweeps'
 restraint together.
 */
module ReuploadLaws {
  import opened Common
  import opened IndexMaps
  import opened UploadQueue
  import opened UploadRuns

  predicate Spaced(earlier: u32, later: u32, cfg: Config) {
    later > earlier && later >= EarliestReupload(earlier, cfg.minReuploadSeconds)
  }

  predicate Accepts(e: Event, key: string) {
    e.AcceptedUpload? && e.job.nodePublicKey == key
  }

  /** No admission between positions `a` and `b` evicted the node's record. */
  predicate Kept(log: seq<Event>, key: string, a: nat, b: nat)
    requires b <= |log|
  {
    forall k :: a < k < b && log[k].Admitted? ==> key !in log[k].forgot
  }

  predicate NoAccept(log: seq<Event>, key: string, a: nat, b: nat)
    requires b <= |log|
  {
    forall k :: a < k < b ==> !Accepts(log[k], key)
  }

  // ---- The invariant, piece by piece ----

  predicate Timed(log: seq<Event>, clock: nat) {
    && (forall a, b :: 0 <= a < b < |log| ==> log[a].at <= log[b].at)
    && (forall a :: 0 <= a < |log| ==> log[a].at <= clock)
  }

  predicate Recalls(n: NodeState, e: Event)
    requires e.AcceptedUpload?
  {
    && n.acceptedTimestamp.Some? && n.acceptedTimestamp.value >= e.job.advertTimestamp
    && n.acceptedExpiresAt.Some? && n.acceptedExpiresAt.value >= e.at + SEEN_ADVERT_TTL_MS
  }

  /** The record of a node holds at least what was accepted in the last 72 hours, unless it was evicted. */
  predicate Remembered(log: seq<Event>, nodes: NodeTable, clock: nat) {
    forall a :: 0 <= a < |log| && log[a].AcceptedUpload? && Kept(log, log[a].job.nodePublicKey, a, |log|)
                && clock < log[a].at + SEEN_ADVERT_TTL_MS
      ==> log[a].job.nodePublicKey in nodes.values && Recalls(nodes.values[log[a].job.nodePublicKey], log[a])
  }

  predicate AdmittedAt(log: seq<Event>, b: nat, id: nat, job: UploadJob)
    requires b < |log|
  {
    log[b].Admitted? && log[b].id == id && log[b].job == job
  }

  predicate AdmittedSinceAccept(log: seq<Event>, id: nat, job: UploadJob, n: nat)
    requires n <= |log|
  {
    exists b :: 0 <= b < n && AdmittedAt(log, b, id, job) && NoAccept(log, job.nodePublicKey, b, n)
  }

  /** A queued job was admitted after every acceptance of its node so far. */
  predicate RowsAdmitted(log: seq<Event>, jobs: seq<JobRow>) {
    forall r :: r in jobs ==> AdmittedSinceAccept(log, r.id, r.job, |log|)
  }

  predicate AcceptsAdmitted(log: seq<Event>) {
    forall c :: 0 <= c < |log| && log[c].AcceptedUpload? ==> AdmittedSinceAccept(log, log[c].id, log[c].job, c)
  }

  predicate SpacedPair(log: seq<Event>, a: nat, b: nat, cfg: Config)
    requires a < b < |log| && log[a].AcceptedUpload? && log[b].Admitted?
  {
    && log[a].job.nodePublicKey == log[b].job.nodePublicKey
    && Kept(log, log[a].job.nodePublicKey, a, b)
    && log[b].at < log[a].at + SEEN_ADVERT_TTL_MS
    ==> Spaced(log[a].job.advertTimestamp, log[b].job.advertTimestamp, cfg)
  }

  predicate AdmissionsSpaced(log: seq<Event>, cfg: Config) {
    forall a, b :: 0 <= a < b < |log| && log[a].AcceptedUpload? && log[b].Admitted? ==> SpacedPair(log, a, b, cfg)
  }

  predicate Memory(s: System, cfg: Config) {
    && Timed(s.log, s.clock)
    && Remembered(s.log, s.queue.nodes, s.clock)
    && RowsAdmitted(s.log, s.queue.jobs)
    && AcceptsAdmitted(s.log)
    && AdmissionsSpaced(s.log, cfg)
  }

  // ---- Changes to the node records ----

  /** Every unexpired acceptance outside `forgot` is still on record. */
  predicate SameMemory(nodes: NodeTable, after: NodeTable, forgot: set<string>, now: nat) {
    forall k :: k in nodes.values && k !in forgot && After(nodes.values[k].acceptedExpiresAt, now)
      ==> && k in after.values
          && after.values[k].acceptedTimestamp == nodes.values[k].acceptedTimestamp
          && after.values[k].acceptedExpiresAt == nodes.values[k].acceptedExpiresAt
  }

  lemma AdmitMemory(q: Queue, cfg: Config, job: UploadJob, now: nat)
    requires Valid(q.nodes)
    ensures SameMemory(q.nodes, Admit(q, cfg, job, now).nodes, Trimmed(CooledNodes(q, job, now), MAX_NODE_ENTRIES), now)
    ensures !Admission(q, cfg, job, now).Enqueued? ==> Admit(q, cfg, job, now).nodes == q.nodes
  {
    hide TooSoon, Valid, Queued, TrimTo, Trimmed;
    var node := NodeOf(q.nodes, job.nodePublicKey);
    InsertValid(q.nodes, job.nodePublicKey, node.(cooldownUntil := Some(now + VALID_ADVERT_COOLDOWN_MS)));
    TrimValid(CooledNodes(q, job, now), MAX_NODE_ENTRIES);
  }

  lemma SweepMemory(q: Queue, now: nat)
    ensures SameMemory(q.nodes, SweepNodes(q, now).nodes, {}, now)
  {
  }

  lemma FinishMemory(q: Queue, id: nat, job: UploadJob, now: nat)
    ensures SameMemory(q.nodes, FinishDropped(q, id).nodes, {}, now)
    ensures SameMemory(q.nodes, FinishCompleted(q, id, job, false, now).nodes, {}, now)
    ensures SameMemory(q.nodes, FinishCompleted(q, id, job, true, now).nodes, {job.nodePublicKey}, now)
  {
  }

  // ---- Changes to the log ----

  predicate Quiet(e: Event) {
    e.ClaimedAt? || e.Retried?
  }

  lemma TimePasses(s: System, cfg: Config, nodes: NodeTable, jobs: seq<JobRow>, now: nat)
    requires Memory(s, cfg) && now >= s.clock && SameMemory(s.queue.nodes, nodes, {}, now)
    requires forall r :: r in jobs ==> exists t :: t in s.queue.jobs && t.id == r.id && t.job == r.job
    ensures Timed(s.log, now) && Remembered(s.log, nodes, now) && RowsAdmitted(s.log, jobs)
  {
  }

  lemma RememberedLater(log: seq<Event>, nodes: NodeTable, clock: nat, e: Event, after: NodeTable, now: nat)
    requires Remembered(log, nodes, clock) && now >= clock && !e.AcceptedUpload?
    requires SameMemory(nodes, after, if e.Admitted? then e.forgot else {}, now)
    ensures Remembered(log + [e], after, now)
  {
    var log' := log + [e];
    forall a | 0 <= a < |log'| && log'[a].AcceptedUpload? && Kept(log', log'[a].job.nodePublicKey, a, |log'|)
               && now < log'[a].at + SEEN_ADVERT_TTL_MS
      ensures log'[a].job.nodePublicKey in after.values && Recalls(after.values[log'[a].job.nodePublicKey], log'[a])
    {
      assert log'[|log|] == e;
      assert Kept(log, log[a].job.nodePublicKey, a, |log|) by {
        assert forall k :: 0 <= k < |log| ==> log'[k] == log[k];
      }
    }
  }

  lemma StillAdmitted(log: seq<Event>, e: Event, id: nat, job: UploadJob, n: nat)
    requires n <= |log| && AdmittedSinceAccept(log, id, job, n)
    ensures AdmittedSinceAccept(log + [e], id, job, n)
    ensures n == |log| && !Accepts(e, job.nodePublicKey) ==> AdmittedSinceAccept(log + [e], id, job, n + 1)
  {
    var b :| 0 <= b < n && AdmittedAt(log, b, id, job) && NoAccept(log, job.nodePublicKey, b, n);
    var log' := log + [e];
    assert AdmittedAt(log', b, id, job) && NoAccept(log', job.nodePublicKey, b, n);
    if n == |log| && !Accepts(e, job.nodePublicKey) {
      assert NoAccept(log', job.nodePublicKey, b, n + 1);
    }
  }

  lemma AcceptsStayAdmitted(log: seq<Event>, e: Event)
    requires AcceptsAdmitted(log)
    requires e.AcceptedUpload? ==> AdmittedSinceAccept(log, e.id, e.job, |log|)
    ensures AcceptsAdmitted(log + [e])
  {
    var log' := log + [e];
    forall c | 0 <= c < |log'| && log'[c].AcceptedUpload? ensures AdmittedSinceAccept(log', log'[c].id, log'[c].job, c) {
      StillAdmitted(log, e, log'[c].id, log'[c].job, c);
    }
  }

  lemma RowsStayAdmitted(log: seq<Event>, jobs: seq<JobRow>, e: Event, after: seq<JobRow>)
    requires RowsAdmitted(log, jobs)
    requires forall r :: r in after ==> exists t :: t in jobs && t.id == r.id && t.job == r.job
    requires forall r :: r in after ==> !Accepts(e, r.job.nodePublicKey)
    ensures RowsAdmitted(log + [e], after)
  {
    forall r | r in after ensures AdmittedSinceAccept(log + [e], r.id, r.job, |log| + 1) {
      StillAdmitted(log, e, r.id, r.job, |log|);
    }
  }

  lemma PairsStaySpaced(log: seq<Event>, e: Event, cfg: Config)
    requires AdmissionsSpaced(log, cfg)
    requires e.Admitted? ==> forall a :: 0 <= a < |log| && log[a].AcceptedUpload? ==> SpacedPair(log + [e], a, |log|, cfg)
    ensures AdmissionsSpaced(log + [e], cfg)
  {
    var log' := log + [e];
    forall a, b | 0 <= a < b < |log'| && log'[a].AcceptedUpload? && log'[b].Admitted? ensures SpacedPair(log', a, b, cfg) {
      if b < |log| {
        assert SpacedPair(log, a, b, cfg);
        assert Kept(log', log'[a].job.nodePublicKey, a, b) ==> Kept(log, log[a].job.nodePublicKey, a, b) by {
          assert forall k :: 0 <= k < |log| ==> log'[k] == log[k];
        }
      }
    }
  }

  /** An admission that is let through is spaced from every acceptance still remembered. */
  lemma AdmissionIsSpaced(s: System, cfg: Config, job: UploadJob, now: nat, e: Event, a: nat)
    requires Remembered(s.log, s.queue.nodes, s.clock) && now >= s.clock
    requires Admission(s.queue, cfg, job, now).Enqueued?
    requires e.Admitted? && e.job == job && e.at == now
    requires a < |s.log| && s.log[a].AcceptedUpload?
    ensures SpacedPair(s.log + [e], a, |s.log|, cfg)
  {
    var log' := s.log + [e];
    var key := job.nodePublicKey;
    if s.log[a].job.nodePublicKey == key && Kept(log', key, a, |s.log|) && now < s.log[a].at + SEEN_ADVERT_TTL_MS {
      assert Kept(s.log, key, a, |s.log|) by {
        assert forall k :: 0 <= k < |s.log| ==> log'[k] == s.log[k];
      }
      assert Recalls(s.queue.nodes.values[key], s.log[a]);
    }
  }

  /** An accepted job's timestamp is no older than any acceptance of its node that is still remembered. */
  lemma AcceptsAscend(log: seq<Event>, cfg: Config, clock: nat, id: nat, job: UploadJob, a: nat)
    requires Timed(log, clock) && AdmissionsSpaced(log, cfg) && AdmittedSinceAccept(log, id, job, |log|)
    requires a < |log| && Accepts(log[a], job.nodePublicKey) && Kept(log, job.nodePublicKey, a, |log|)
    requires clock < log[a].at + SEEN_ADVERT_TTL_MS
    ensures log[a].job.advertTimestamp < job.advertTimestamp
  {
    var b :| 0 <= b < |log| && AdmittedAt(log, b, id, job) && NoAccept(log, job.nodePublicKey, b, |log|);
    assert a < b;
    assert SpacedPair(log, a, b, cfg);
  }

  lemma RememberedAccept(log: seq<Event>, nodes: NodeTable, clock: nat, cfg: Config, e: Event, after: NodeTable)
    requires Timed(log, clock) && Remembered(log, nodes, clock) && AdmissionsSpaced(log, cfg)
    requires e.AcceptedUpload? && e.at >= clock && AdmittedSinceAccept(log, e.id, e.job, |log|)
    requires SameMemory(nodes, after, {e.job.nodePublicKey}, e.at)
    requires e.job.nodePublicKey in after.values
    requires after.values[e.job.nodePublicKey] == NodeState(None, Some(e.job.advertTimestamp), Some(e.at + SEEN_ADVERT_TTL_MS))
    ensures Remembered(log + [e], after, e.at)
  {
    var log' := log + [e];
    forall a | 0 <= a < |log'| && log'[a].AcceptedUpload? && Kept(log', log'[a].job.nodePublicKey, a, |log'|)
               && e.at < log'[a].at + SEEN_ADVERT_TTL_MS
      ensures log'[a].job.nodePublicKey in after.values && Recalls(after.values[log'[a].job.nodePublicKey], log'[a])
    {
      if a < |log| {
        assert Kept(log, log[a].job.nodePublicKey, a, |log|) by {
          assert forall k :: 0 <= k < |log| ==> log'[k] == log[k];
        }
        if log[a].job.nodePublicKey == e.job.nodePublicKey {
          AcceptsAscend(log, cfg, clock, e.id, e.job, a);
        }
      }
    }
  }

  lemma RowArrivesAdmitted(log: seq<Event>, jobs: seq<JobRow>, e: Event, row: JobRow)
    requires RowsAdmitted(log, jobs) && e.Admitted? && e.id == row.id && e.job == row.job
    ensures RowsAdmitted(log + [e], jobs + [row])
  {
    var log' := log + [e];
    forall r | r in jobs + [row] ensures AdmittedSinceAccept(log', r.id, r.job, |log'|) {
      if r in jobs {
        StillAdmitted(log, e, r.id, r.job, |log|);
      } else {
        assert AdmittedAt(log', |log|, row.id, row.job) && NoAccept(log', row.job.nodePublicKey, |log|, |log'|);
      }
    }
  }

  // ---- One step ----

  lemma AdmitRemembers(s: System, cfg: Config, a: Action)
    requires Inv(s, cfg) && Memory(s, cfg) && Enabled(s, cfg, a) && a.AdmitJob?
    ensures Memory(Next(s, cfg, a), cfg)
  {
    hide Held, PostsCounted, Delayed, Remembered, RowsAdmitted, AcceptsAdmitted, AdmissionsSpaced, Admission, CooledNodes,
         TrimTo, Trimmed, Valid, SameMemory;
    AdmitMemory(s.queue, cfg, a.job, a.now);
    var forgot := Trimmed(CooledNodes(s.queue, a.job, a.now), MAX_NODE_ENTRIES);
    if Admission(s.queue, cfg, a.job, a.now).Enqueued? {
      var e := Admitted(s.queue.nextJobId + 1, a.job, a.now, forgot);
      var row := JobRow(s.queue.nextJobId + 1, a.job, Pending, a.now, 0);
      RememberedLater(s.log, s.queue.nodes, s.clock, e, Next(s, cfg, a).queue.nodes, a.now);
      RowArrivesAdmitted(s.log, s.queue.jobs, e, row);
      AcceptsStayAdmitted(s.log, e);
      forall k | 0 <= k < |s.log| && s.log[k].AcceptedUpload? ensures SpacedPair(s.log + [e], k, |s.log|, cfg) {
        AdmissionIsSpaced(s, cfg, a.job, a.now, e, k);
      }
      PairsStaySpaced(s.log, e, cfg);
    } else {
      Unchanged(s.queue.nodes, a.now);
      TimePasses(s, cfg, s.queue.nodes, s.queue.jobs, a.now);
    }
  }

  lemma Unchanged(nodes: NodeTable, now: nat)
    ensures SameMemory(nodes, nodes, {}, now)
  {
  }

  /** A claim or a retry is logged; the rows keep their ids and jobs. */
  lemma QuietStep(s: System, cfg: Config, e: Event, jobs: seq<JobRow>)
    requires Memory(s, cfg) && Quiet(e) && e.at >= s.clock
    requires forall r :: r in jobs ==> exists t :: t in s.queue.jobs && t.id == r.id && t.job == r.job
    ensures Memory(s.(log := s.log + [e], clock := e.at, queue := s.queue.(jobs := jobs)), cfg)
  {
    hide Remembered, RowsAdmitted, AcceptsAdmitted, AdmissionsSpaced, SameMemory;
    Unchanged(s.queue.nodes, e.at);
    RememberedLater(s.log, s.queue.nodes, s.clock, e, s.queue.nodes, e.at);
    RowsStayAdmitted(s.log, s.queue.jobs, e, jobs);
    AcceptsStayAdmitted(s.log, e);
    PairsStaySpaced(s.log, e, cfg);
  }

  lemma ClaimRemembers(s: System, cfg: Config, a: Action)
    requires Inv(s, cfg) && Memory(s, cfg) && Enabled(s, cfg, a) && a.ClaimJob?
    ensures Memory(Next(s, cfg, a), cfg)
  {
    hide Held, PostsCounted, Delayed, Remembered, RowsAdmitted, AcceptsAdmitted, AdmissionsSpaced, Timed, OnePerNode;
    var jobs, free := s.queue.jobs, s.queue.jobs[a.i];
    UpdateMembers(jobs, a.i, ClaimedRow(free), s.queue.nextJobId);
    SameRows(jobs, jobs[a.i := ClaimedRow(free)], free, ClaimedRow(free));
    QuietStep(s, cfg, ClaimedAt(free.id, a.now), jobs[a.i := ClaimedRow(free)]);
  }

  lemma SameRows(jobs: seq<JobRow>, after: seq<JobRow>, before: JobRow, row: JobRow)
    requires before in jobs && row.id == before.id && row.job == before.job
    requires forall r :: r in after ==> r == row || r in jobs
    ensures forall r :: r in after ==> exists t :: t in jobs && t.id == r.id && t.job == r.job
  {
  }

  lemma RescheduledRows(jobs: seq<JobRow>, i: nat, before: JobRow, row: JobRow)
    requires i < |jobs| && jobs[i] == before && row.id == before.id && row.job == before.job
    ensures forall r :: r in jobs[i := row] ==> exists t :: t in jobs && t.id == r.id && t.job == r.job
  {
    SameRows(jobs, jobs[i := row], before, row);
  }

  lemma RetryRemembers(s: System, cfg: Config, a: Action)
    requires Inv(s, cfg) && Memory(s, cfg) && Enabled(s, cfg, a) && a.Settle? && a.result.RetryLater?
    requires s.workers[a.w].row.attemptCount < MaxAttempts(s.workers[a.w].row.job)
    ensures Memory(Next(s, cfg, a), cfg)
  {
    hide QueueInv, IdsAscend, Held, PostsCounted, Delayed, Remembered, RowsAdmitted, AcceptsAdmitted, AdmissionsSpaced, Timed,
         FindProcessing, Backoff, Admissions, LogKnown;
    var row, jobs := s.workers[a.w].row, s.queue.jobs;
    HeldRow(s, cfg, a.w);
    var i := FindProcessing(jobs, row.id).value;
    var back := ScheduledRow(row, cfg.retryDelayMs, a.now, a.jitter);
    RescheduledRows(jobs, i, row, back);
    QuietStep(s, cfg, Retried(row.id, row.attemptCount, a.now), jobs[i := back]);
  }

  lemma RefusalRemembers(s: System, cfg: Config, a: Action)
    requires Inv(s, cfg) && Memory(s, cfg) && Enabled(s, cfg, a) && a.Settle? && !a.result.Accepted?
    requires a.result.RetryLater? ==> s.workers[a.w].row.attemptCount >= MaxAttempts(s.workers[a.w].row.job)
    ensures Memory(Next(s, cfg, a), cfg)
  {
    hide QueueInv, IdsAscend, Held, PostsCounted, Delayed, Remembered, RowsAdmitted, AcceptsAdmitted, AdmissionsSpaced, Timed,
         FindProcessing, RemoveAt, NodeOf, SameMemory;
    var row, jobs := s.workers[a.w].row, s.queue.jobs;
    HeldRow(s, cfg, a.w);
    var i := FindProcessing(jobs, row.id).value;
    RemoveMembers(jobs, i, s.queue.nextJobId);
    FinishMemory(s.queue, row.id, row.job, a.now);
    TimePasses(s, cfg, Next(s, cfg, a).queue.nodes, RemoveAt(jobs, i), a.now);
  }

  lemma OnlyRowOfNode(jobs: seq<JobRow>, row: JobRow)
    requires OnePerNode(jobs) && row in jobs
    ensures forall r :: r in jobs && r.id != row.id ==> r.job.nodePublicKey != row.job.nodePublicKey
  {
  }

  lemma AcceptRemembers(s: System, cfg: Config, a: Action)
    requires Inv(s, cfg) && Memory(s, cfg) && Enabled(s, cfg, a) && a.Settle? && a.result.Accepted?
    ensures Memory(Next(s, cfg, a), cfg)
  {
    hide IdsAscend, OnePerNode, Accounted, Held, PostsCounted, Delayed, Remembered, AcceptsAdmitted, AdmissionsSpaced,
         AdmittedSinceAccept, FindProcessing, RemoveAt, NodeOf, SameMemory;
    var row, jobs := s.workers[a.w].row, s.queue.jobs;
    HeldRow(s, cfg, a.w);
    var i := FindProcessing(jobs, row.id).value;
    var e := AcceptedUpload(row.id, row.job, a.now);
    RemoveMembers(jobs, i, s.queue.nextJobId);
    OnlyRowOfNode(jobs, row);
    FinishMemory(s.queue, row.id, row.job, a.now);
    RememberedAccept(s.log, s.queue.nodes, s.clock, cfg, e, Next(s, cfg, a).queue.nodes);
    RowsStayAdmitted(s.log, jobs, e, RemoveAt(jobs, i));
    AcceptsStayAdmitted(s.log, e);
    PairsStaySpaced(s.log, e, cfg);
  }

  lemma StepKeepsMemory(s: System, cfg: Config, a: Action)
    requires Inv(s, cfg) && Memory(s, cfg) && Enabled(s, cfg, a)
    ensures Memory(Next(s, cfg, a), cfg)
  {
    hide Inv, Next, Memory;
    match a
    case AdmitJob(_, _) => AdmitRemembers(s, cfg, a);
    case ClaimJob(_, _, _) => ClaimRemembers(s, cfg, a);
    case Begin(_) => BeginRemembers(s, cfg, a);
    case Settle(w, result, _, _) =>
      if result.Accepted? {
        AcceptRemembers(s, cfg, a);
      } else if result.RetryLater? && s.workers[w].row.attemptCount < MaxAttempts(s.workers[w].row.job) {
        RetryRemembers(s, cfg, a);
      } else {
        RefusalRemembers(s, cfg, a);
      }
    case Sweep(_) => SweepRemembers(s, cfg, a);
  }

  lemma BeginRemembers(s: System, cfg: Config, a: Action)
    requires Inv(s, cfg) && Memory(s, cfg) && Enabled(s, cfg, a) && a.Begin?
    ensures Memory(Next(s, cfg, a), cfg)
  {
    hide Inv, Timed, Remembered, RowsAdmitted, AcceptsAdmitted, AdmissionsSpaced;
    BeginStep(s, cfg, a);
  }

  lemma SweepRemembers(s: System, cfg: Config, a: Action)
    requires Inv(s, cfg) && Memory(s, cfg) && Enabled(s, cfg, a) && a.Sweep?
    ensures Memory(Next(s, cfg, a), cfg)
  {
    hide Inv, Remembered, RowsAdmitted, AcceptsAdmitted, AdmissionsSpaced, SameMemory;
    SweepMemory(s.queue, a.now);
    TimePasses(s, cfg, SweepNodes(s.queue, a.now).nodes, s.queue.jobs, a.now);
  }

  // ---- Runs ----

  lemma {:induction false} RunKeepsMemory(trace: seq<System>, actions: seq<Action>, cfg: Config, i: nat)
    requires Run(trace, actions, cfg) && i < |trace|
    ensures Memory(trace[i], cfg)
  {
    if i == 0 {
    } else {
      hide Inv, Next, Memory;
      RunKeepsMemory(trace, actions, cfg, i - 1);
      RunKeepsInv(trace, actions, cfg, i - 1);
      assert Follows(trace[i - 1], cfg, actions[i - 1], trace[i]);
      StepKeepsMemory(trace[i - 1], cfg, actions[i - 1]);
    }
  }

  /** Of two accepted uploads of a node, the later was admitted in between; if that was within 72 hours and
      the node's record was not evicted meanwhile, its advert is newer by the configured distance. */
  lemma AcceptedUploadsAreSpaced(trace: seq<System>, actions: seq<Action>, cfg: Config, i: nat, a: nat, c: nat)
    requires Run(trace, actions, cfg) && i < |trace|
    requires a < c < |trace[i].log| && trace[i].log[a].AcceptedUpload? && Accepts(trace[i].log[c], trace[i].log[a].job.nodePublicKey)
    ensures exists b :: a < b < c && AdmittedAt(trace[i].log, b, trace[i].log[c].id, trace[i].log[c].job)
              && (Kept(trace[i].log, trace[i].log[a].job.nodePublicKey, a, b) && trace[i].log[b].at < trace[i].log[a].at + SEEN_ADVERT_TTL_MS
                  ==> Spaced(trace[i].log[a].job.advertTimestamp, trace[i].log[c].job.advertTimestamp, cfg))
    ensures Kept(trace[i].log, trace[i].log[a].job.nodePublicKey, a, c) && trace[i].log[c].at < trace[i].log[a].at + SEEN_ADVERT_TTL_MS
            ==> Spaced(trace[i].log[a].job.advertTimestamp, trace[i].log[c].job.advertTimestamp, cfg)
  {
    RunKeepsMemory(trace, actions, cfg, i);
    hide Run, Remembered, RowsAdmitted;
    SpacedInLog(trace[i].log, trace[i].clock, cfg, a, c);
  }

  lemma SpacedInLog(log: seq<Event>, clock: nat, cfg: Config, a: nat, c: nat)
    requires Timed(log, clock) && AcceptsAdmitted(log) && AdmissionsSpaced(log, cfg)
    requires a < c < |log| && log[a].AcceptedUpload? && Accepts(log[c], log[a].job.nodePublicKey)
    ensures exists b :: a < b < c && AdmittedAt(log, b, log[c].id, log[c].job)
              && (Kept(log, log[a].job.nodePublicKey, a, b) && log[b].at < log[a].at + SEEN_ADVERT_TTL_MS
                  ==> Spaced(log[a].job.advertTimestamp, log[c].job.advertTimestamp, cfg))
    ensures Kept(log, log[a].job.nodePublicKey, a, c) && log[c].at < log[a].at + SEEN_ADVERT_TTL_MS
            ==> Spaced(log[a].job.advertTimestamp, log[c].job.advertTimestamp, cfg)
  {
    var b :| 0 <= b < c && AdmittedAt(log, b, log[c].id, log[c].job) && NoAccept(log, log[c].job.nodePublicKey, b, c);
    assert a < b;
    assert SpacedPair(log, a, b, cfg);
  }

  /** The distance in full: newer, and by the configured seconds unless 32-bit timestamps run out. */
  predicate FullySpaced(earlier: u32, later: u32, cfg: Config) {
    later > earlier && later >= Min(earlier + cfg.minReuploadSeconds, U32_MAX)
  }

  /** The configured distance is cut to 32 bits. Nothing is lost for exactly the settings below, which the
      validated range of at most a day (src/config/validation.rs:193-198) satisfies. */
  lemma DistanceIsExact(cfg: Config)
    ensures (forall earlier: u32, later: u32 :: Spaced(earlier, later, cfg) <==> FullySpaced(earlier, later, cfg))
       <==> (cfg.minReuploadSeconds <= U32_MAX || cfg.minReuploadSeconds % (U32_MAX + 1) == U32_MAX)
  {
    var cut := cfg.minReuploadSeconds % (U32_MAX + 1);
    if cfg.minReuploadSeconds > U32_MAX && cut != U32_MAX {
      assert Spaced(0, Max(cut, 1), cfg) && !FullySpaced(0, Max(cut, 1), cfg);
    }
  }
}
