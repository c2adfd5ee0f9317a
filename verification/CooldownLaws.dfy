/**
 When a node may be admitted and a job claimed: the hour of cooldown written at
 admission never outlives the job, and a due job is always claimed in order.
 */
module CooldownLaws {
  import opened Common
  import opened IndexMaps
  import opened UploadQueue
  import opened UploadRuns

  /** A node is cooling down only while a job of it is queued. */
  predicate CooldownsQueued(nodes: NodeTable, jobs: seq<JobRow>) {
    forall k :: k in nodes.values && nodes.values[k].cooldownUntil.Some? ==> Queued(jobs, k)
  }

  lemma QueuedStays(jobs: seq<JobRow>, i: nat, row: JobRow, key: string)
    requires i < |jobs| && row.job == jobs[i].job
    ensures Queued(jobs, key) ==> Queued(jobs[i := row], key)
    ensures Queued(jobs, key) && jobs[i].job.nodePublicKey != key ==> Queued(RemoveAt(jobs, i), key)
    ensures Queued(jobs, key) ==> Queued(jobs + [row], key)
  {
    if Queued(jobs, key) {
      var k :| 0 <= k < |jobs| && jobs[k].job.nodePublicKey == key;
      assert jobs[i := row][k].job.nodePublicKey == key;
      assert (jobs + [row])[k].job.nodePublicKey == key;
      if jobs[i].job.nodePublicKey != key {
        assert RemoveAt(jobs, i)[if k < i then k else k - 1].job.nodePublicKey == key;
      }
    }
  }

  lemma AdmitKeepsCooldowns(q: Queue, cfg: Config, job: UploadJob, now: nat)
    requires Valid(q.nodes) && CooldownsQueued(q.nodes, q.jobs)
    ensures CooldownsQueued(Admit(q, cfg, job, now).nodes, Admit(q, cfg, job, now).jobs)
  {
    hide TooSoon, Valid, TrimTo, Trimmed;
    if Admission(q, cfg, job, now).Enqueued? {
      InsertValid(q.nodes, job.nodePublicKey, NodeOf(q.nodes, job.nodePublicKey).(cooldownUntil := Some(now + VALID_ADVERT_COOLDOWN_MS)));
      TrimValid(CooledNodes(q, job, now), MAX_NODE_ENTRIES);
      var after := Admit(q, cfg, job, now);
      forall k | k in after.nodes.values && after.nodes.values[k].cooldownUntil.Some? ensures Queued(after.jobs, k) {
        if k == job.nodePublicKey {
          assert after.jobs[|q.jobs|].job.nodePublicKey == k;
        } else {
          var i :| 0 <= i < |q.jobs| && q.jobs[i].job.nodePublicKey == k;
          assert after.jobs[i].job.nodePublicKey == k;
        }
      }
    }
  }

  lemma RowKeepsCooldowns(nodes: NodeTable, jobs: seq<JobRow>, i: nat, row: JobRow)
    requires CooldownsQueued(nodes, jobs) && i < |jobs| && row.job == jobs[i].job
    ensures CooldownsQueued(nodes, jobs[i := row])
  {
    forall k | k in nodes.values && nodes.values[k].cooldownUntil.Some? ensures Queued(jobs[i := row], k) {
      QueuedStays(jobs, i, row, k);
    }
  }

  lemma FinishKeepsCooldowns(q: Queue, id: nat, job: UploadJob, accepted: bool, now: nat)
    requires CooldownsQueued(q.nodes, q.jobs)
    requires FindProcessing(q.jobs, id).Some? ==> q.jobs[FindProcessing(q.jobs, id).value].job == job
    ensures CooldownsQueued(FinishCompleted(q, id, job, accepted, now).nodes, FinishCompleted(q, id, job, accepted, now).jobs)
    ensures CooldownsQueued(FinishDropped(q, id).nodes, FinishDropped(q, id).jobs)
  {
    var i := FindProcessing(q.jobs, id);
    if i.Some? {
      forall k | Queued(q.jobs, k) && k != job.nodePublicKey ensures Queued(RemoveAt(q.jobs, i.value), k) {
        QueuedStays(q.jobs, i.value, q.jobs[i.value], k);
      }
      hide Queued, RemoveAt, FindProcessing;
    }
  }

  lemma SweepKeepsCooldowns(q: Queue, now: nat)
    requires CooldownsQueued(q.nodes, q.jobs)
    ensures CooldownsQueued(SweepNodes(q, now).nodes, SweepNodes(q, now).jobs)
  {
  }

  lemma SettleKeepsCooldowns(s: System, cfg: Config, a: Action)
    requires Inv(s, cfg) && Enabled(s, cfg, a) && a.Settle? && CooldownsQueued(s.queue.nodes, s.queue.jobs)
    ensures CooldownsQueued(Next(s, cfg, a).queue.nodes, Next(s, cfg, a).queue.jobs)
  {
    hide CooldownsQueued, FinishCompleted, FinishDropped, FindProcessing, Backoff, QueueInv, Held, PostsCounted, Delayed;
    var row := s.workers[a.w].row;
    HeldRow(s, cfg, a.w);
    FinishKeepsCooldowns(s.queue, row.id, row.job, a.result.Accepted?, a.now);
    RowKeepsCooldowns(s.queue.nodes, s.queue.jobs, FindProcessing(s.queue.jobs, row.id).value,
                      ScheduledRow(row, cfg.retryDelayMs, a.now, a.jitter));
  }

  lemma StepKeepsCooldowns(s: System, cfg: Config, a: Action)
    requires Inv(s, cfg) && Enabled(s, cfg, a) && CooldownsQueued(s.queue.nodes, s.queue.jobs)
    ensures CooldownsQueued(Next(s, cfg, a).queue.nodes, Next(s, cfg, a).queue.jobs)
  {
    hide CooldownsQueued, FindProcessing, Held, PostsCounted, Delayed, Admit, SweepNodes, IsNextDue;
    match a
    case AdmitJob(job, now) => AdmitKeepsCooldowns(s.queue, cfg, job, now);
    case ClaimJob(_, i, now) =>
      assert i < |s.queue.jobs| by { NextDueIsRow(s.queue.jobs, now, i); }
      RowKeepsCooldowns(s.queue.nodes, s.queue.jobs, i, ClaimedRow(s.queue.jobs[i]));
    case Begin(_) => BeginStep(s, cfg, a);
    case Settle(_, _, _, _) => SettleKeepsCooldowns(s, cfg, a);
    case Sweep(now) => SweepKeepsCooldowns(s.queue, now);
  }

  lemma NextDueIsRow(jobs: seq<JobRow>, now: nat, i: nat)
    requires IsNextDue(jobs, now, i)
    ensures i < |jobs|
  {
  }

  lemma {:induction false} RunKeepsCooldowns(trace: seq<System>, actions: seq<Action>, cfg: Config, i: nat)
    requires Run(trace, actions, cfg) && i < |trace|
    ensures CooldownsQueued(trace[i].queue.nodes, trace[i].queue.jobs)
  {
    if i == 0 {
    } else {
      hide Inv, Next, CooldownsQueued;
      RunKeepsCooldowns(trace, actions, cfg, i - 1);
      RunKeepsInv(trace, actions, cfg, i - 1);
      assert Follows(trace[i - 1], cfg, actions[i - 1], trace[i]);
      StepKeepsCooldowns(trace[i - 1], cfg, actions[i - 1]);
    }
  }

  // ---- Claiming ----

  /** Whenever some row is due, exactly one is next. */
  lemma NextDueIsUnique(jobs: seq<JobRow>, nextJobId: nat, now: nat)
    requires IdsAscend(jobs, nextJobId)
    ensures (exists i: nat :: IsNextDue(jobs, now, i)) <==> exists j :: 0 <= j < |jobs| && Due(jobs[j], now)
    ensures forall i, j :: IsNextDue(jobs, now, i) && IsNextDue(jobs, now, j) ==> i == j
  {
    if j :| 0 <= j < |jobs| && Due(jobs[j], now) {
      var i := LeastDue(jobs, now, |jobs|, j);
      assert IsNextDue(jobs, now, i);
    }
  }

  lemma {:induction false} LeastDue(jobs: seq<JobRow>, now: nat, n: nat, j: nat) returns (i: nat)
    requires j < n <= |jobs| && Due(jobs[j], now)
    ensures i < n && Due(jobs[i], now)
    ensures forall k :: 0 <= k < n && Due(jobs[k], now) ==> NoLater(jobs[i], jobs[k])
  {
    if d :| 0 <= d < n - 1 && Due(jobs[d], now) {
      i := LeastDue(jobs, now, n - 1, d);
      if Due(jobs[n - 1], now) && !NoLater(jobs[i], jobs[n - 1]) {
        i := n - 1;
      }
    } else {
      i := j;
    }
  }

  /** A job just enqueued can be claimed at once. */
  lemma NewJobIsDue(q: Queue, cfg: Config, job: UploadJob, now: nat)
    requires QueueInv(q, cfg) && Admission(q, cfg, job, now).Enqueued?
    ensures exists i: nat :: IsNextDue(Admit(q, cfg, job, now).jobs, now, i)
  {
    hide TooSoon, Admission, IsNextDue;
    AdmitKeepsQueue(q, cfg, job, now);
    var after := Admit(q, cfg, job, now);
    assert Due(after.jobs[|q.jobs|], now);
    NextDueIsUnique(after.jobs, after.nextJobId, now);
  }
}
