/**
 Every verdict of the upload queue, said of the log alone: which acceptances and which
 admissions a node's record stands for at any moment of any run, and what follows for the
 adverts let in, held back and turned away.
 */
module VerdictLaws {
  import opened Common
  import opened IndexMaps
  import opened UploadQueue
  import opened UploadRuns
  import opened ReuploadLaws
  import opened CooldownLaws

  // ---- What the log says of a node ----

  predicate IsLastAccept(log: seq<Event>, key: string, a: int) {
    0 <= a < |log| && Accepts(log[a], key) && forall k :: a < k < |log| ==> !Accepts(log[k], key)
  }

  /** The last acceptance of a node, unless an admission evicted the node's record since. */
  predicate StandsFor(log: seq<Event>, key: string, a: int) {
    IsLastAccept(log, key, a) && Kept(log, key, a, |log|)
  }

  predicate IsRow(r: JobRow, e: Event) {
    e.Admitted? && r.id == e.id && r.job == e.job
  }

  predicate IsQueued(jobs: seq<JobRow>, e: Event) {
    exists r :: r in jobs && IsRow(r, e)
  }

  /** The admission of a queued job of the node, unless it or a later one evicted the node's record. */
  predicate CoolsFor(log: seq<Event>, jobs: seq<JobRow>, key: string, b: int) {
    && 0 <= b < |log| && log[b].Admitted? && log[b].job.nodePublicKey == key
    && key !in log[b].forgot && Kept(log, key, b, |log|)
    && IsQueued(jobs, log[b])
  }

  // ---- What the record of a node holds ----

  predicate HoldsAccept(nodes: NodeTable, key: string) {
    key in nodes.values && (nodes.values[key].acceptedTimestamp.Some? || nodes.values[key].acceptedExpiresAt.Some?)
  }

  predicate HoldsCooldown(nodes: NodeTable, key: string) {
    key in nodes.values && nodes.values[key].cooldownUntil.Some?
  }

  predicate Records(n: NodeState, e: Event) {
    && e.AcceptedUpload?
    && n.acceptedTimestamp == Some(e.job.advertTimestamp) && n.acceptedExpiresAt == Some(e.at + 259_200_000)
  }

  /** An acceptance on record is the one the log stands for; one the log stands for is on record for 72 hours. */
  ghost predicate AcceptExact(log: seq<Event>, nodes: NodeTable, key: string, clock: nat) {
    && (HoldsAccept(nodes, key) ==> exists a :: StandsFor(log, key, a) && Records(nodes.values[key], log[a]))
    && (forall a :: StandsFor(log, key, a) && clock < log[a].at + 259_200_000 ==> HoldsAccept(nodes, key))
  }

  /** The same for the hour of cooldown that an admission writes. */
  ghost predicate CooldownExact(log: seq<Event>, jobs: seq<JobRow>, nodes: NodeTable, key: string, clock: nat) {
    && (HoldsCooldown(nodes, key) ==>
          exists b :: CoolsFor(log, jobs, key, b) && nodes.values[key].cooldownUntil == Some(log[b].at + 3_600_000))
    && (forall b :: CoolsFor(log, jobs, key, b) && clock < log[b].at + 3_600_000 ==> HoldsCooldown(nodes, key))
  }

  // ---- Acceptances through a step ----

  /** A table change that writes no acceptance and loses none but an expired or a forgotten one. */
  predicate KeepsAccept(nodes: NodeTable, after: NodeTable, key: string, forgotten: bool, now: nat) {
    && (HoldsAccept(after, key) ==>
          && !forgotten && HoldsAccept(nodes, key)
          && after.values[key].acceptedTimestamp == nodes.values[key].acceptedTimestamp
          && after.values[key].acceptedExpiresAt == nodes.values[key].acceptedExpiresAt)
    && (HoldsAccept(nodes, key) && !forgotten && After(nodes.values[key].acceptedExpiresAt, now) ==> HoldsAccept(after, key))
  }

  lemma StandsAfter(log: seq<Event>, e: Event, key: string, a: int)
    requires !Accepts(e, key)
    ensures StandsFor(log + [e], key, a) <==> StandsFor(log, key, a) && !(e.Admitted? && key in e.forgot)
  {
    var longer := log + [e];
    assert longer[|log|] == e && forall k :: 0 <= k < |log| ==> longer[k] == log[k];
  }

  lemma LastAcceptOnly(log: seq<Event>, key: string, a: int, b: int)
    requires IsLastAccept(log, key, a) && IsLastAccept(log, key, b)
    ensures a == b
  {
  }

  /** Time passes, and the table changes. */
  lemma AcceptStays(log: seq<Event>, nodes: NodeTable, key: string, clock: nat, after: NodeTable, now: nat)
    requires AcceptExact(log, nodes, key, clock) && now >= clock && KeepsAccept(nodes, after, key, false, now)
    ensures AcceptExact(log, after, key, now)
  {
    forall a | StandsFor(log, key, a) && now < log[a].at + 259_200_000 ensures HoldsAccept(after, key) {
      var b :| StandsFor(log, key, b) && Records(nodes.values[key], log[b]);
      LastAcceptOnly(log, key, a, b);
    }
  }

  /** An event that is no acceptance of the node is logged as well. */
  lemma AcceptLogged(log: seq<Event>, nodes: NodeTable, key: string, clock: nat, e: Event, after: NodeTable, now: nat)
    requires AcceptExact(log, nodes, key, clock) && now >= clock && !Accepts(e, key)
    requires KeepsAccept(nodes, after, key, e.Admitted? && key in e.forgot, now)
    ensures AcceptExact(log + [e], after, key, now)
  {
    var longer := log + [e];
    forall a ensures StandsFor(longer, key, a) <==> StandsFor(log, key, a) && !(e.Admitted? && key in e.forgot) {
      StandsAfter(log, e, key, a);
    }
    if HoldsAccept(after, key) {
      var a :| StandsFor(log, key, a) && Records(nodes.values[key], log[a]);
      assert longer[a] == log[a] && StandsFor(longer, key, a);
    }
    forall a | StandsFor(longer, key, a) && now < longer[a].at + 259_200_000 ensures HoldsAccept(after, key) {
      assert longer[a] == log[a];
      var b :| StandsFor(log, key, b) && Records(nodes.values[key], log[b]);
      LastAcceptOnly(log, key, a, b);
    }
  }

  lemma AcceptArrives(log: seq<Event>, e: Event, after: NodeTable, now: nat)
    requires e.AcceptedUpload? && e.job.nodePublicKey in after.values && Records(after.values[e.job.nodePublicKey], e)
    ensures AcceptExact(log + [e], after, e.job.nodePublicKey, now)
  {
    var longer := log + [e];
    assert longer[|log|] == e && StandsFor(longer, e.job.nodePublicKey, |log|);
  }

  // ---- Cooldowns through a step ----

  predicate KeepsCooldown(nodes: NodeTable, after: NodeTable, key: string, forgotten: bool, now: nat) {
    && (HoldsCooldown(after, key) ==>
          !forgotten && HoldsCooldown(nodes, key) && after.values[key].cooldownUntil == nodes.values[key].cooldownUntil)
    && (HoldsCooldown(nodes, key) && !forgotten && After(nodes.values[key].cooldownUntil, now) ==> HoldsCooldown(after, key))
  }

  predicate RowsCarry(jobs: seq<JobRow>, after: seq<JobRow>, key: string) {
    forall r :: r in jobs && r.job.nodePublicKey == key ==> exists t :: t in after && t.id == r.id && t.job == r.job
  }

  /** The rows of the node have the same ids and jobs. */
  predicate SameOf(jobs: seq<JobRow>, after: seq<JobRow>, key: string) {
    RowsCarry(jobs, after, key) && RowsCarry(after, jobs, key)
  }

  lemma StillQueued(jobs: seq<JobRow>, after: seq<JobRow>, key: string, e: Event)
    requires RowsCarry(jobs, after, key) && e.Admitted? && e.job.nodePublicKey == key && IsQueued(jobs, e)
    ensures IsQueued(after, e)
  {
    var r :| r in jobs && IsRow(r, e);
    var t :| t in after && t.id == r.id && t.job == r.job;
    assert IsRow(t, e);
  }

  lemma KeptAfter(log: seq<Event>, e: Event, key: string, b: nat)
    requires b < |log|
    ensures Kept(log + [e], key, b, |log| + 1) <==> Kept(log, key, b, |log|) && !(e.Admitted? && key in e.forgot)
  {
    var longer := log + [e];
    assert longer[|log|] == e && forall k :: 0 <= k < |log| ==> longer[k] == log[k];
  }

  lemma CoolsAfter(log: seq<Event>, jobs: seq<JobRow>, after: seq<JobRow>, e: Event, key: string, b: int)
    requires SameOf(jobs, after, key) && (e.Admitted? ==> e.job.nodePublicKey != key)
    ensures CoolsFor(log, after, key, b) <==> CoolsFor(log, jobs, key, b)
    ensures CoolsFor(log + [e], after, key, b) <==> CoolsFor(log, jobs, key, b) && !(e.Admitted? && key in e.forgot)
  {
    hide RowsCarry, IsQueued, Kept;
    var longer := log + [e];
    assert longer[|log|] == e && forall k :: 0 <= k < |log| ==> longer[k] == log[k];
    if 0 <= b < |log| {
      KeptAfter(log, e, key, b);
      if log[b].Admitted? && log[b].job.nodePublicKey == key {
        if IsQueued(jobs, log[b]) { StillQueued(jobs, after, key, log[b]); }
        if IsQueued(after, log[b]) { StillQueued(after, jobs, key, log[b]); }
      }
    }
  }

  /** Admissions are logged with ascending ids. */
  predicate AdmittedOnce(log: seq<Event>, nextJobId: nat) {
    && (forall a, b :: 0 <= a < b < |log| && log[a].Admitted? && log[b].Admitted? ==> log[a].id < log[b].id)
    && (forall a :: 0 <= a < |log| && log[a].Admitted? ==> log[a].id <= nextJobId)
  }

  /** A queued node cools down for one admission. */
  lemma CoolsOnly(log: seq<Event>, jobs: seq<JobRow>, nextJobId: nat, key: string, b: int, c: int)
    requires AdmittedOnce(log, nextJobId) && OnePerNode(jobs)
    requires CoolsFor(log, jobs, key, b) && CoolsFor(log, jobs, key, c)
    ensures b == c
  {
    var r :| r in jobs && IsRow(r, log[b]);
    var t :| t in jobs && IsRow(t, log[c]);
    OnlyRow(jobs, r, t);
  }

  lemma OnlyRow(jobs: seq<JobRow>, r: JobRow, t: JobRow)
    requires OnePerNode(jobs) && r in jobs && t in jobs && r.job.nodePublicKey == t.job.nodePublicKey
    ensures r == t
  {
  }

  lemma CooldownStays(log: seq<Event>, jobs: seq<JobRow>, nextJobId: nat, nodes: NodeTable, key: string, clock: nat,
                      afterJobs: seq<JobRow>, after: NodeTable, now: nat)
    requires CooldownExact(log, jobs, nodes, key, clock) && now >= clock && AdmittedOnce(log, nextJobId) && OnePerNode(jobs)
    requires SameOf(jobs, afterJobs, key) && KeepsCooldown(nodes, after, key, false, now)
    ensures CooldownExact(log, afterJobs, after, key, now)
  {
    hide SameOf, AdmittedOnce, OnePerNode;
    forall b ensures CoolsFor(log, afterJobs, key, b) <==> CoolsFor(log, jobs, key, b) {
      CoolsAfter(log, jobs, afterJobs, ClaimedAt(0, 0), key, b);
    }
    forall b | CoolsFor(log, afterJobs, key, b) && now < log[b].at + 3_600_000 ensures HoldsCooldown(after, key) {
      var c :| CoolsFor(log, jobs, key, c) && nodes.values[key].cooldownUntil == Some(log[c].at + 3_600_000);
      CoolsOnly(log, jobs, nextJobId, key, b, c);
    }
  }

  lemma CooldownLogged(log: seq<Event>, jobs: seq<JobRow>, nextJobId: nat, nodes: NodeTable, key: string, clock: nat, e: Event,
                       afterJobs: seq<JobRow>, after: NodeTable, now: nat)
    requires CooldownExact(log, jobs, nodes, key, clock) && now >= clock && AdmittedOnce(log, nextJobId) && OnePerNode(jobs)
    requires SameOf(jobs, afterJobs, key) && (e.Admitted? ==> e.job.nodePublicKey != key)
    requires KeepsCooldown(nodes, after, key, e.Admitted? && key in e.forgot, now)
    ensures CooldownExact(log + [e], afterJobs, after, key, now)
  {
    hide SameOf, AdmittedOnce, OnePerNode;
    var longer := log + [e];
    forall b ensures CoolsFor(longer, afterJobs, key, b) <==> CoolsFor(log, jobs, key, b) && !(e.Admitted? && key in e.forgot) {
      CoolsAfter(log, jobs, afterJobs, e, key, b);
    }
    if HoldsCooldown(after, key) {
      var b :| CoolsFor(log, jobs, key, b) && nodes.values[key].cooldownUntil == Some(log[b].at + 3_600_000);
      assert longer[b] == log[b] && CoolsFor(longer, afterJobs, key, b);
    }
    forall b | CoolsFor(longer, afterJobs, key, b) && now < longer[b].at + 3_600_000 ensures HoldsCooldown(after, key) {
      assert longer[b] == log[b];
      var c :| CoolsFor(log, jobs, key, c) && nodes.values[key].cooldownUntil == Some(log[c].at + 3_600_000);
      CoolsOnly(log, jobs, nextJobId, key, b, c);
    }
  }

  /** The job of the node leaves the queue, and its record's cooldown is cleared. */
  lemma CooldownClears(log: seq<Event>, jobs: seq<JobRow>, key: string, after: NodeTable, now: nat)
    requires !HoldsCooldown(after, key) && forall r :: r in jobs ==> r.job.nodePublicKey != key
    ensures CooldownExact(log, jobs, after, key, now)
  {
  }

  /** The node is admitted: a row of its own and an hour of cooldown, unless its record was evicted right away. */
  lemma CooldownArrives(log: seq<Event>, nextJobId: nat, e: Event, jobs: seq<JobRow>, row: JobRow, after: NodeTable)
    requires AdmittedOnce(log, nextJobId) && e.Admitted? && e.id == nextJobId + 1 && row.id == e.id && row.job == e.job
    requires forall r :: r in jobs ==> r.job.nodePublicKey != e.job.nodePublicKey
    requires var key := e.job.nodePublicKey;
             if key in e.forgot then key !in after.values
             else key in after.values && after.values[key].cooldownUntil == Some(e.at + 3_600_000)
    ensures CooldownExact(log + [e], jobs + [row], after, e.job.nodePublicKey, e.at)
  {
    var longer, key := log + [e], e.job.nodePublicKey;
    assert longer[|log|] == e && forall k :: 0 <= k < |log| ==> longer[k] == log[k];
    assert row in jobs + [row];
    forall b | CoolsFor(longer, jobs + [row], key, b) ensures b == |log| {
      var r :| r in jobs + [row] && IsRow(r, longer[b]);
      assert r == row;
    }
    if key !in e.forgot {
      assert IsRow(row, longer[|log|]);
      assert CoolsFor(longer, jobs + [row], key, |log|);
    }
  }

  // ---- One step ----

  ghost predicate Exact(s: System, key: string) {
    && AdmittedOnce(s.log, s.queue.nextJobId)
    && AcceptExact(s.log, s.queue.nodes, key, s.clock)
    && CooldownExact(s.log, s.queue.jobs, s.queue.nodes, key, s.clock)
  }

  lemma OnceMore(log: seq<Event>, nextJobId: nat, e: Event)
    requires AdmittedOnce(log, nextJobId)
    ensures !e.Admitted? ==> AdmittedOnce(log + [e], nextJobId)
    ensures e.Admitted? && e.id == nextJobId + 1 ==> AdmittedOnce(log + [e], nextJobId + 1)
  {
  }

  /** What an enqueueing admission does to the record of any node. */
  lemma AdmittedRecords(q: Queue, cfg: Config, job: UploadJob, now: nat, key: string)
    requires Valid(q.nodes) && Admission(q, cfg, job, now).Enqueued?
    ensures var after, forgot := Admit(q, cfg, job, now).nodes, Trimmed(CooledNodes(q, job, now), MAX_NODE_ENTRIES);
            && KeepsAccept(q.nodes, after, key, key in forgot, now)
            && (key != job.nodePublicKey ==> KeepsCooldown(q.nodes, after, key, key in forgot, now))
            && (key == job.nodePublicKey ==>
                  if key in forgot then key !in after.values
                  else key in after.values && after.values[key].cooldownUntil == Some(now + 3_600_000))
  {
    hide TooSoon, Valid, Queued, TrimTo, Trimmed, Admission;
    var node := NodeOf(q.nodes, job.nodePublicKey);
    InsertValid(q.nodes, job.nodePublicKey, node.(cooldownUntil := Some(now + VALID_ADVERT_COOLDOWN_MS)));
    TrimValid(CooledNodes(q, job, now), MAX_NODE_ENTRIES);
  }

  lemma SameRecords(nodes: NodeTable, key: string, now: nat)
    ensures KeepsAccept(nodes, nodes, key, false, now) && KeepsCooldown(nodes, nodes, key, false, now)
  {
  }

  lemma AdmitExact(s: System, cfg: Config, a: Action, key: string)
    requires Inv(s, cfg) && Exact(s, key) && Enabled(s, cfg, a) && a.AdmitJob?
    ensures Exact(Next(s, cfg, a), key)
  {
    hide Held, PostsCounted, Delayed, AcceptExact, CooldownExact, CooledNodes, TrimTo, Trimmed, Valid, KeepsAccept, KeepsCooldown,
      TooSoon, AdmittedOnce, IdsAscend, OnePerNode, SameOf;
    var forgot := Trimmed(CooledNodes(s.queue, a.job, a.now), MAX_NODE_ENTRIES);
    var after := Next(s, cfg, a).queue.nodes;
    if Admission(s.queue, cfg, a.job, a.now).Enqueued? {
      var e := Admitted(s.queue.nextJobId + 1, a.job, a.now, forgot);
      var row := JobRow(s.queue.nextJobId + 1, a.job, Pending, a.now, 0);
      OnceMore(s.log, s.queue.nextJobId, e);
      AdmittedRecords(s.queue, cfg, a.job, a.now, key);
      AcceptLogged(s.log, s.queue.nodes, key, s.clock, e, after, a.now);
      if key == a.job.nodePublicKey {
        NotQueued(s.queue.jobs, key);
        CooldownArrives(s.log, s.queue.nextJobId, e, s.queue.jobs, row, after);
      } else {
        RowOfOther(s.queue.jobs, row, key);
        CooldownLogged(s.log, s.queue.jobs, s.queue.nextJobId, s.queue.nodes, key, s.clock, e, s.queue.jobs + [row], after, a.now);
      }
    } else {
      SameRecords(s.queue.nodes, key, a.now);
      SameRows(s.queue.jobs, key);
      AcceptStays(s.log, s.queue.nodes, key, s.clock, s.queue.nodes, a.now);
      CooldownStays(s.log, s.queue.jobs, s.queue.nextJobId, s.queue.nodes, key, s.clock, s.queue.jobs, s.queue.nodes, a.now);
    }
  }

  lemma NotQueued(jobs: seq<JobRow>, key: string)
    requires !Queued(jobs, key)
    ensures forall r :: r in jobs ==> r.job.nodePublicKey != key
  {
  }

  lemma SameRows(jobs: seq<JobRow>, key: string)
    ensures SameOf(jobs, jobs, key)
  {
  }

  lemma RowOfOther(jobs: seq<JobRow>, row: JobRow, key: string)
    requires row.job.nodePublicKey != key
    ensures SameOf(jobs, jobs + [row], key)
  {
  }

  lemma RowReplaced(jobs: seq<JobRow>, i: nat, row: JobRow, key: string)
    requires i < |jobs| && row.id == jobs[i].id && row.job == jobs[i].job
    ensures SameOf(jobs, jobs[i := row], key)
  {
    var after := jobs[i := row];
    forall r | r in jobs && r.job.nodePublicKey == key ensures exists t :: t in after && t.id == r.id && t.job == r.job {
      var k :| 0 <= k < |jobs| && jobs[k] == r;
      assert after[k] in after;
    }
    forall r | r in after && r.job.nodePublicKey == key ensures exists t :: t in jobs && t.id == r.id && t.job == r.job {
      var k :| 0 <= k < |after| && after[k] == r;
      assert jobs[k] in jobs;
    }
  }

  /** A claim or a retry is logged. */
  lemma QuietExact(s: System, e: Event, jobs: seq<JobRow>, key: string)
    requires Exact(s, key) && OnePerNode(s.queue.jobs) && Quiet(e) && e.at >= s.clock && SameOf(s.queue.jobs, jobs, key)
    ensures Exact(s.(log := s.log + [e], clock := e.at, queue := s.queue.(jobs := jobs)), key)
  {
    hide AcceptExact, CooldownExact, KeepsAccept, KeepsCooldown, AdmittedOnce, OnePerNode, SameOf;
    SameRecords(s.queue.nodes, key, e.at);
    OnceMore(s.log, s.queue.nextJobId, e);
    AcceptLogged(s.log, s.queue.nodes, key, s.clock, e, s.queue.nodes, e.at);
    CooldownLogged(s.log, s.queue.jobs, s.queue.nextJobId, s.queue.nodes, key, s.clock, e, jobs, s.queue.nodes, e.at);
  }

  lemma ClaimExact(s: System, cfg: Config, a: Action, key: string)
    requires Inv(s, cfg) && Exact(s, key) && Enabled(s, cfg, a) && a.ClaimJob?
    ensures Exact(Next(s, cfg, a), key)
  {
    hide Held, PostsCounted, Delayed, Exact, OnePerNode, IdsAscend, SameOf;
    var free := s.queue.jobs[a.i];
    RowReplaced(s.queue.jobs, a.i, ClaimedRow(free), key);
    QuietExact(s, ClaimedAt(free.id, a.now), s.queue.jobs[a.i := ClaimedRow(free)], key);
    ExactOfView(s.(log := s.log + [ClaimedAt(free.id, a.now)], clock := a.now, queue := Claim(s.queue, a.i)), Next(s, cfg, a), key);
  }

  /** What the workers do is no part of it. */
  lemma ExactOfView(s: System, t: System, key: string)
    requires Exact(s, key) && t.log == s.log && t.queue == s.queue && t.clock == s.clock
    ensures Exact(t, key)
  {
  }

  lemma RetryExact(s: System, cfg: Config, a: Action, key: string)
    requires Inv(s, cfg) && Exact(s, key) && Enabled(s, cfg, a) && a.Settle? && a.result.RetryLater?
    requires s.workers[a.w].row.attemptCount < MaxAttempts(s.workers[a.w].row.job)
    ensures Exact(Next(s, cfg, a), key)
  {
    hide IdsAscend, Accounted, Held, PostsCounted, Delayed, FindProcessing, Backoff, Admissions, LogKnown, Exact, OnePerNode, SameOf;
    var row, jobs := s.workers[a.w].row, s.queue.jobs;
    HeldRow(s, cfg, a.w);
    var i := FindProcessing(jobs, row.id).value;
    var back := ScheduledRow(row, cfg.retryDelayMs, a.now, a.jitter);
    RowReplaced(jobs, i, back, key);
    QuietExact(s, Retried(row.id, row.attemptCount, a.now), jobs[i := back], key);
    ExactOfView(s.(log := s.log + [Retried(row.id, row.attemptCount, a.now)], clock := a.now, queue := s.queue.(jobs := jobs[i := back])),
      Next(s, cfg, a), key);
  }

  /** The one row of its node leaves. */
  lemma RowLeft(jobs: seq<JobRow>, i: nat, nextJobId: nat, key: string)
    requires i < |jobs| && IdsAscend(jobs, nextJobId) && OnePerNode(jobs)
    ensures key == jobs[i].job.nodePublicKey ==> forall r :: r in RemoveAt(jobs, i) ==> r.job.nodePublicKey != key
    ensures key != jobs[i].job.nodePublicKey ==> SameOf(jobs, RemoveAt(jobs, i), key)
  {
    RemoveMembers(jobs, i, nextJobId);
    hide RemoveAt;
    forall r | r in jobs && r.job.nodePublicKey == jobs[i].job.nodePublicKey ensures r == jobs[i] {
      OnlyRow(jobs, r, jobs[i]);
    }
    assert forall r :: r in jobs && r.id == jobs[i].id ==> r == jobs[i];
  }

  lemma FinishedRecords(q: Queue, id: nat, job: UploadJob, accepted: bool, now: nat, key: string)
    requires FindProcessing(q.jobs, id).Some? && q.jobs[FindProcessing(q.jobs, id).value].job == job
    ensures forall after :: after == FinishDropped(q, id).nodes || (after == FinishCompleted(q, id, job, accepted, now).nodes && !accepted) ==>
              && KeepsAccept(q.nodes, after, key, false, now)
              && (if key == job.nodePublicKey then !HoldsCooldown(after, key) else KeepsCooldown(q.nodes, after, key, false, now))
    ensures accepted ==>
              var after := FinishCompleted(q, id, job, true, now).nodes;
              if key == job.nodePublicKey then
                key in after.values && !HoldsCooldown(after, key)
                && after.values[key].acceptedTimestamp == Some(job.advertTimestamp)
                && after.values[key].acceptedExpiresAt == Some(now + 259_200_000)
              else
                KeepsAccept(q.nodes, after, key, false, now) && KeepsCooldown(q.nodes, after, key, false, now)
  {
    hide FindProcessing, RemoveAt;
  }

  lemma SettleExact(s: System, cfg: Config, a: Action, key: string)
    requires Inv(s, cfg) && Exact(s, key) && Enabled(s, cfg, a) && a.Settle?
    requires a.result.RetryLater? ==> s.workers[a.w].row.attemptCount >= MaxAttempts(s.workers[a.w].row.job)
    ensures Exact(Next(s, cfg, a), key)
  {
    hide Held, PostsCounted, Delayed, FindProcessing, Admissions, LogKnown, AcceptExact, CooldownExact, KeepsAccept, KeepsCooldown,
      AdmittedOnce, SameOf, FinishDropped, FinishCompleted, IdsAscend, OnePerNode, RemoveAt;
    var row := s.workers[a.w].row;
    HeldRow(s, cfg, a.w);
    var i := FindProcessing(s.queue.jobs, row.id).value;
    var t := Next(s, cfg, a);
    var rest := RemoveAt(s.queue.jobs, i);
    RowLeft(s.queue.jobs, i, s.queue.nextJobId, key);
    FinishedRecords(s.queue, row.id, row.job, a.result.Accepted?, a.now, key);
    FinishedQueue(s.queue, row.id, row.job, a.result.Accepted?, a.now);
    if a.result.Accepted? {
      var e := AcceptedUpload(row.id, row.job, a.now);
      OnceMore(s.log, s.queue.nextJobId, e);
      if key == row.job.nodePublicKey {
        AcceptArrives(s.log, e, t.queue.nodes, a.now);
        CooldownClears(s.log + [e], rest, key, t.queue.nodes, a.now);
      } else {
        AcceptLogged(s.log, s.queue.nodes, key, s.clock, e, t.queue.nodes, a.now);
        CooldownLogged(s.log, s.queue.jobs, s.queue.nextJobId, s.queue.nodes, key, s.clock, e, rest, t.queue.nodes, a.now);
      }
    } else {
      AcceptStays(s.log, s.queue.nodes, key, s.clock, t.queue.nodes, a.now);
      if key == row.job.nodePublicKey {
        CooldownClears(s.log, rest, key, t.queue.nodes, a.now);
      } else {
        CooldownStays(s.log, s.queue.jobs, s.queue.nextJobId, s.queue.nodes, key, s.clock, rest, t.queue.nodes, a.now);
      }
    }
  }

  lemma FinishedQueue(q: Queue, id: nat, job: UploadJob, accepted: bool, now: nat)
    requires FindProcessing(q.jobs, id).Some?
    ensures var rest := RemoveAt(q.jobs, FindProcessing(q.jobs, id).value);
            && FinishCompleted(q, id, job, accepted, now).jobs == rest && FinishDropped(q, id).jobs == rest
            && FinishCompleted(q, id, job, accepted, now).nextJobId == q.nextJobId && FinishDropped(q, id).nextJobId == q.nextJobId
  {
  }

  lemma SweepExact(s: System, cfg: Config, a: Action, key: string)
    requires Inv(s, cfg) && Exact(s, key) && Enabled(s, cfg, a) && a.Sweep?
    ensures Exact(Next(s, cfg, a), key)
  {
    hide Held, PostsCounted, Delayed, AcceptExact, CooldownExact, KeepsAccept, KeepsCooldown, AdmittedOnce, SameOf, IdsAscend,
      OnePerNode, SweepNodes;
    SweptRecords(s.queue, a.now, key);
    SameRows(s.queue.jobs, key);
    var after := SweepNodes(s.queue, a.now);
    AcceptStays(s.log, s.queue.nodes, key, s.clock, after.nodes, a.now);
    CooldownStays(s.log, s.queue.jobs, s.queue.nextJobId, s.queue.nodes, key, s.clock, s.queue.jobs, after.nodes, a.now);
  }

  lemma SweptRecords(q: Queue, now: nat, key: string)
    ensures var after := SweepNodes(q, now);
            && after.jobs == q.jobs && after.nextJobId == q.nextJobId
            && KeepsAccept(q.nodes, after.nodes, key, false, now) && KeepsCooldown(q.nodes, after.nodes, key, false, now)
  {
  }

  lemma StepStaysExact(s: System, cfg: Config, a: Action, key: string)
    requires Inv(s, cfg) && Exact(s, key) && Enabled(s, cfg, a)
    ensures Exact(Next(s, cfg, a), key)
  {
    hide Inv, Next, Exact;
    match a
    case AdmitJob(_, _) => AdmitExact(s, cfg, a, key);
    case ClaimJob(_, _, _) => ClaimExact(s, cfg, a, key);
    case Begin(_) => BeginExact(s, cfg, a, key);
    case Settle(w, result, _, _) =>
      if result.RetryLater? && s.workers[w].row.attemptCount < MaxAttempts(s.workers[w].row.job) {
        RetryExact(s, cfg, a, key);
      } else {
        SettleExact(s, cfg, a, key);
      }
    case Sweep(_) => SweepExact(s, cfg, a, key);
  }

  lemma BeginExact(s: System, cfg: Config, a: Action, key: string)
    requires Inv(s, cfg) && Exact(s, key) && Enabled(s, cfg, a) && a.Begin?
    ensures Exact(Next(s, cfg, a), key)
  {
    hide Inv, Exact;
    BeginStep(s, cfg, a);
    ExactOfView(s, Next(s, cfg, a), key);
  }

  lemma {:induction false} RunStaysExact(trace: seq<System>, actions: seq<Action>, cfg: Config, i: nat, key: string)
    requires Run(trace, actions, cfg) && i < |trace|
    ensures Exact(trace[i], key)
  {
    if i == 0 {
    } else {
      hide Inv, Next, Exact;
      RunStaysExact(trace, actions, cfg, i - 1, key);
      RunKeepsInv(trace, actions, cfg, i - 1);
      assert Follows(trace[i - 1], cfg, actions[i - 1], trace[i]);
      StepStaysExact(trace[i - 1], cfg, actions[i - 1], key);
    }
  }

  // ---- The verdicts ----

  /** The node's last upload, under 72 hours old and its record not evicted since, is as new as the advert, or the
      advert comes before the distance, cut to 32 bits as its sum is, has passed. */
  predicate Blocks(log: seq<Event>, a: int, job: UploadJob, now: nat, minReuploadSeconds: nat) {
    && StandsFor(log, job.nodePublicKey, a) && now < log[a].at + 259_200_000
    && (log[a].job.advertTimestamp >= job.advertTimestamp
        || job.advertTimestamp < Min(log[a].job.advertTimestamp + minReuploadSeconds % 4_294_967_296, 4_294_967_295))
  }

  /** A job of the node is queued that was admitted less than an hour ago, the record not evicted then or since. */
  predicate Cools(log: seq<Event>, jobs: seq<JobRow>, b: int, key: string, now: nat) {
    CoolsFor(log, jobs, key, b) && now < log[b].at + 3_600_000
  }

  predicate IsBlocked(log: seq<Event>, job: UploadJob, now: nat, minReuploadSeconds: nat) {
    exists a :: 0 <= a < |log| && Blocks(log, a, job, now, minReuploadSeconds)
  }

  predicate IsCooling(log: seq<Event>, jobs: seq<JobRow>, key: string, now: nat) {
    exists b :: 0 <= b < |log| && Cools(log, jobs, b, key, now)
  }

  predicate HasJob(jobs: seq<JobRow>, key: string) {
    exists r :: r in jobs && r.job.nodePublicKey == key
  }

  /** In every run the verdict on an advert follows from the log and the queued jobs alone. An advert of a node without
      a queued job is a duplicate if and only if the log holds an upload that blocks it, and else it is let in for as long
      as there is room. */
  lemma VerdictExactly(trace: seq<System>, actions: seq<Action>, cfg: Config, i: nat, job: UploadJob, now: nat)
    requires Run(trace, actions, cfg) && i < |trace| && now >= trace[i].clock
    ensures var s := trace[i];
            Admission(s.queue, cfg, job, now) ==
              if IsBlocked(s.log, job, now, cfg.minReuploadSeconds) then Duplicate
              else if IsCooling(s.log, s.queue.jobs, job.nodePublicKey, now) then Cooldown
              else if HasJob(s.queue.jobs, job.nodePublicKey) then Duplicate
              else if |s.queue.jobs| >= cfg.maxQueuedUploads then CapacityRejected
              else Enqueued
  {
    var s, key := trace[i], job.nodePublicKey;
    RunStaysExact(trace, actions, cfg, i, key);
    RunKeepsInv(trace, actions, cfg, i);
    hide Run, Exact, IsBlocked, IsCooling, TooSoon, Held, PostsCounted, Delayed, IdsAscend, OnePerNode;
    BlockedExactly(s, cfg, job, now);
    CoolingExactly(s, key, now);
  }

  /** In no run does the cooldown hold back a node whose job is gone: without a queued job the verdict follows from the
      remembered upload and the room in the queue alone. */
  lemma CooldownOnlyWhileQueued(trace: seq<System>, actions: seq<Action>, cfg: Config, i: nat, job: UploadJob, now: nat)
    requires Run(trace, actions, cfg) && i < |trace| && now >= trace[i].clock
    ensures var s := trace[i];
            var verdict := Admission(s.queue, cfg, job, now);
            && (verdict.Cooldown? ==> HasJob(s.queue.jobs, job.nodePublicKey))
            && (!HasJob(s.queue.jobs, job.nodePublicKey) ==>
                  && (verdict.Duplicate? <==> IsBlocked(s.log, job, now, cfg.minReuploadSeconds))
                  && (verdict.Enqueued? <==> !verdict.Duplicate? && |s.queue.jobs| < cfg.maxQueuedUploads))
  {
    RunKeepsCooldowns(trace, actions, cfg, i);
    VerdictExactly(trace, actions, cfg, i, job, now);
    hide Run, IsBlocked, IsCooling, TooSoon;
    CoolingIsQueued(trace[i].queue, job.nodePublicKey, now);
  }

  lemma CoolingIsQueued(q: Queue, key: string, now: nat)
    requires CooldownsQueued(q.nodes, q.jobs)
    ensures After(NodeOf(q.nodes, key).cooldownUntil, now) ==> HasJob(q.jobs, key)
  {
    if After(NodeOf(q.nodes, key).cooldownUntil, now) {
      var i :| 0 <= i < |q.jobs| && q.jobs[i].job.nodePublicKey == key;
      assert q.jobs[i] in q.jobs;
    }
  }

  lemma BlockedExactly(s: System, cfg: Config, job: UploadJob, now: nat)
    requires Exact(s, job.nodePublicKey) && now >= s.clock
    ensures TooSoon(NodeOf(s.queue.nodes, job.nodePublicKey), job.advertTimestamp, now, cfg.minReuploadSeconds)
       <==> IsBlocked(s.log, job, now, cfg.minReuploadSeconds)
  {
    hide CooldownExact, AdmittedOnce, Kept;
    var log, nodes, key := s.log, s.queue.nodes, job.nodePublicKey;
    if TooSoon(NodeOf(nodes, key), job.advertTimestamp, now, cfg.minReuploadSeconds) {
      var a :| StandsFor(log, key, a) && Records(nodes.values[key], log[a]);
      assert Blocks(log, a, job, now, cfg.minReuploadSeconds);
    }
    if IsBlocked(log, job, now, cfg.minReuploadSeconds) {
      var a :| 0 <= a < |log| && Blocks(log, a, job, now, cfg.minReuploadSeconds);
      assert HoldsAccept(nodes, key);
      var b :| StandsFor(log, key, b) && Records(nodes.values[key], log[b]);
      LastAcceptOnly(log, key, a, b);
    }
  }

  lemma CoolingExactly(s: System, key: string, now: nat)
    requires Exact(s, key) && OnePerNode(s.queue.jobs) && now >= s.clock
    ensures After(NodeOf(s.queue.nodes, key).cooldownUntil, now) <==> IsCooling(s.log, s.queue.jobs, key, now)
  {
    hide AcceptExact, AdmittedOnce, OnePerNode, IsQueued, Kept;
    var log, jobs, nodes := s.log, s.queue.jobs, s.queue.nodes;
    if After(NodeOf(nodes, key).cooldownUntil, now) {
      var b :| CoolsFor(log, jobs, key, b) && nodes.values[key].cooldownUntil == Some(log[b].at + 3_600_000);
      assert Cools(log, jobs, b, key, now);
    }
    if IsCooling(log, jobs, key, now) {
      var b :| 0 <= b < |log| && Cools(log, jobs, b, key, now);
      assert HoldsCooldown(nodes, key);
      var c :| CoolsFor(log, jobs, key, c) && nodes.values[key].cooldownUntil == Some(log[c].at + 3_600_000);
      CoolsOnly(log, jobs, s.queue.nextJobId, key, b, c);
    }
  }

  // ---- Sweeps ----

  predicate IsRemembered(log: seq<Event>, key: string, now: nat) {
    exists a :: 0 <= a < |log| && StandsFor(log, key, a) && now < log[a].at + 259_200_000
  }

  /** After a sweep a node is on record exactly while it cools down for a queued job or its last upload is under 72 hours
      old, its record not evicted since. */
  lemma SweptExactly(trace: seq<System>, actions: seq<Action>, cfg: Config, i: nat, key: string)
    requires Run(trace, actions, cfg) && i < |actions| && actions[i].Sweep?
    ensures key in trace[i + 1].queue.nodes.values
       <==> || IsCooling(trace[i + 1].log, trace[i + 1].queue.jobs, key, actions[i].now)
            || IsRemembered(trace[i + 1].log, key, actions[i].now)
  {
    var s, a, t := trace[i], actions[i], trace[i + 1];
    assert Follows(s, cfg, a, t);
    RunStaysExact(trace, actions, cfg, i + 1, key);
    RunKeepsInv(trace, actions, cfg, i + 1);
    hide Run, Exact, IsCooling, IsRemembered, Held, PostsCounted, Delayed, IdsAscend, OnePerNode;
    CoolingExactly(t, key, a.now);
    StandingExactly(t, key, a.now);
    LiveIsKept(s.queue, a.now, key);
  }

  lemma StandingExactly(s: System, key: string, now: nat)
    requires Exact(s, key) && now >= s.clock
    ensures After(NodeOf(s.queue.nodes, key).acceptedExpiresAt, now)
       <==> IsRemembered(s.log, key, now)
  {
    hide CooldownExact, AdmittedOnce, Kept;
    var log, nodes := s.log, s.queue.nodes;
    if After(NodeOf(nodes, key).acceptedExpiresAt, now) {
      var a :| StandsFor(log, key, a) && Records(nodes.values[key], log[a]);
      assert 0 <= a < |log|;
    }
    if a :| 0 <= a < |log| && StandsFor(log, key, a) && now < log[a].at + 259_200_000 {
      assert HoldsAccept(nodes, key);
      var b :| StandsFor(log, key, b) && Records(nodes.values[key], log[b]);
      LastAcceptOnly(log, key, a, b);
    }
  }

  lemma LiveIsKept(q: Queue, now: nat, key: string)
    ensures var swept := SweepNodes(q, now);
            key in swept.nodes.values <==>
              After(NodeOf(swept.nodes, key).cooldownUntil, now) || After(NodeOf(swept.nodes, key).acceptedExpiresAt, now)
  {
  }

  // ---- Settlements, claims and counters ----

  /** The post a worker is waiting for was the last its job is allowed. */
  predicate IsLastPost(s: System, row: JobRow) {
    s.posts[row.id] >= Max(row.job.retriesAllowed, 1)
  }

  /** An answered job stays queued exactly when it may be posted again and the answer asks for that; it then waits the
      base delay doubled for each earlier post, at most five minutes, and up to a quarter of that and less than a second
      more. No other job is touched. */
  lemma SettledExactly(trace: seq<System>, actions: seq<Action>, cfg: Config, i: nat)
    requires Run(trace, actions, cfg) && i < |actions| && actions[i].Settle?
    ensures actions[i].w in trace[i].workers && actions[i].w !in trace[i + 1].workers
    ensures var s, a, jobs := trace[i], actions[i], trace[i + 1].queue.jobs;
            var row := s.workers[a.w].row;
            && s.posts[row.id] > 0
            && (forall r: JobRow :: r.id != row.id ==> (r in jobs <==> r in s.queue.jobs))
            && ((exists r :: r in jobs && r.id == row.id) <==> a.result == RetryLater && !IsLastPost(s, row))
            && var delay := Min(cfg.retryDelayMs * Power2(s.posts[row.id] - 1), 300_000);
               forall r :: r in jobs && r.id == row.id ==>
                 && r.job == row.job && r.status == Retry && r.attemptCount == s.posts[row.id]
                 && a.now + delay <= r.nextAttemptAt < a.now + delay + 1_000
                 && 4 * (r.nextAttemptAt - a.now - delay) <= delay
  {
    var s, a := trace[i], actions[i];
    assert Follows(s, cfg, a, trace[i + 1]);
    RunKeepsInv(trace, actions, cfg, i);
    hide Run, Inv;
    PostsOfHeld(s, cfg, a.w);
    if a.result == RetryLater && !IsLastPost(s, s.workers[a.w].row) {
      var back := JobReturns(s, cfg, a);
    } else {
      JobLeaves(s, cfg, a);
    }
  }

  lemma PostsOfHeld(s: System, cfg: Config, w: nat)
    requires Inv(s, cfg) && w in s.workers && s.workers[w].Posting?
    ensures s.posts[s.workers[w].row.id] == s.workers[w].row.attemptCount > 0
    ensures IsLastPost(s, s.workers[w].row) <==> s.workers[w].row.attemptCount >= MaxAttempts(s.workers[w].row.job)
  {
    hide QueueInv, Held, Delayed, Admissions, LogKnown;
  }

  lemma JobLeaves(s: System, cfg: Config, a: Action)
    requires Inv(s, cfg) && Enabled(s, cfg, a) && a.Settle?
    requires a.result.RetryLater? ==> s.workers[a.w].row.attemptCount >= MaxAttempts(s.workers[a.w].row.job)
    ensures a.w !in Next(s, cfg, a).workers
    ensures forall r :: r in Next(s, cfg, a).queue.jobs <==> r in s.queue.jobs && r.id != s.workers[a.w].row.id
  {
    hide Held, Delayed, PostsCounted, FindProcessing, Backoff, IdsAscend, RemoveAt, Accounted, OnePerNode, NodeOf;
    HeldRow(s, cfg, a.w);
    RemoveMembers(s.queue.jobs, FindProcessing(s.queue.jobs, s.workers[a.w].row.id).value, s.queue.nextJobId);
  }

  lemma JobReturns(s: System, cfg: Config, a: Action) returns (back: JobRow)
    requires Inv(s, cfg) && Enabled(s, cfg, a) && a.Settle? && a.result.RetryLater?
    requires s.workers[a.w].row.attemptCount < MaxAttempts(s.workers[a.w].row.job)
    ensures a.w !in Next(s, cfg, a).workers
    ensures var row := s.workers[a.w].row;
            var delay := Min(cfg.retryDelayMs * Power2(row.attemptCount - 1), 300_000);
            && back.job == row.job && back.id == row.id && back.status == Retry && back.attemptCount == row.attemptCount
            && a.now + delay <= back.nextAttemptAt < a.now + delay + 1_000
            && 4 * (back.nextAttemptAt - a.now - delay) <= delay
    ensures forall r :: r in Next(s, cfg, a).queue.jobs <==> r == back || (r in s.queue.jobs && r.id != s.workers[a.w].row.id)
  {
    hide Held, Delayed, PostsCounted, FindProcessing, Backoff, JitterMax, IdsAscend, Accounted, OnePerNode, Power2;
    var row, jobs := s.workers[a.w].row, s.queue.jobs;
    HeldRow(s, cfg, a.w);
    BackoffIsExact(cfg.retryDelayMs, row.attemptCount, a.jitter);
    back := ScheduledRow(row, cfg.retryDelayMs, a.now, a.jitter);
    UpdateMembers(jobs, FindProcessing(jobs, row.id).value, back, s.queue.nextJobId);
  }

  /** A claim takes the row that comes first by next attempt, then by id, of those neither in processing nor waiting, and
      takes it as it stands. */
  lemma ClaimedExactly(trace: seq<System>, actions: seq<Action>, cfg: Config, i: nat)
    requires Run(trace, actions, cfg) && i < |actions| && actions[i].ClaimJob?
    ensures var s, a, t := trace[i], actions[i], trace[i + 1];
            && a.i < |s.queue.jobs| && a.w !in s.workers
            && var row := s.queue.jobs[a.i];
               && row.status != Processing && row.nextAttemptAt <= a.now && row.attemptCount == s.posts[row.id]
               && (forall r :: r in s.queue.jobs && r != row && r.status != Processing && r.nextAttemptAt <= a.now ==>
                     row.nextAttemptAt < r.nextAttemptAt || (row.nextAttemptAt == r.nextAttemptAt && row.id < r.id))
               && t.workers == s.workers[a.w := Claimed(row.(status := Processing, attemptCount := row.attemptCount + 1))]
               && t.queue.jobs == s.queue.jobs[a.i := t.workers[a.w].row]
  {
    var s, a := trace[i], actions[i];
    assert Follows(s, cfg, a, trace[i + 1]);
    RunKeepsInv(trace, actions, cfg, i);
    hide Run, Held, Delayed, Accounted, OnePerNode;
    var jobs := s.queue.jobs;
    assert jobs[a.i] in jobs;
    forall r | r in jobs && r != jobs[a.i] && r.status != Processing && r.nextAttemptAt <= a.now
      ensures jobs[a.i].nextAttemptAt < r.nextAttemptAt || (jobs[a.i].nextAttemptAt == r.nextAttemptAt && jobs[a.i].id < r.id)
    {
      var k :| 0 <= k < |jobs| && jobs[k] == r;
      assert Due(jobs[k], a.now);
    }
  }

  /** A row still pending is due from the moment of its admission. */
  predicate PendingSince(log: seq<Event>, r: JobRow) {
    r.status == Pending ==> exists b :: 0 <= b < |log| && IsRow(r, log[b]) && r.nextAttemptAt == log[b].at
  }

  lemma {:induction false} PendingIsDue(trace: seq<System>, actions: seq<Action>, cfg: Config, i: nat, r: JobRow)
    requires Run(trace, actions, cfg) && i < |trace| && r in trace[i].queue.jobs
    ensures PendingSince(trace[i].log, r)
  {
    if i > 0 {
      var s, a := trace[i - 1], actions[i - 1];
      assert Follows(s, cfg, a, trace[i]);
      RunKeepsInv(trace, actions, cfg, i - 1);
      hide Inv;
      if r.status == Pending {
        PendingFrom(s, cfg, a, r);
        if r in s.queue.jobs {
          PendingIsDue(trace, actions, cfg, i - 1, r);
          var b :| 0 <= b < |s.log| && IsRow(r, s.log[b]) && r.nextAttemptAt == s.log[b].at;
          assert trace[i].log[b] == s.log[b];
        }
      }
    }
  }

  lemma PendingFrom(s: System, cfg: Config, a: Action, r: JobRow)
    requires Inv(s, cfg) && Enabled(s, cfg, a) && r in Next(s, cfg, a).queue.jobs && r.status == Pending
    ensures s.log <= Next(s, cfg, a).log
    ensures r in s.queue.jobs || (|Next(s, cfg, a).log| > 0 && IsRow(r, Next(s, cfg, a).log[|Next(s, cfg, a).log| - 1])
                                  && r.nextAttemptAt == Next(s, cfg, a).log[|Next(s, cfg, a).log| - 1].at)
  {
    hide QueueInv, Held, PostsCounted, Delayed, FindProcessing, Backoff, CooledNodes, TrimTo, Trimmed, Admission, Keep, LiveNodes;
    if a.Begin? { BeginStep(s, cfg, a); }
  }

  // ---- Counters ----

  /** Uploads the poster accepted or refused for good. */
  predicate Completes(a: Action) {
    a.Settle? && a.result != RetryLater
  }

  /** Uploads given up after their last post failed. */
  predicate GivesUp(s: System, a: Action) {
    a.Settle? && a.result == RetryLater && a.w in s.workers && IsLastPost(s, s.workers[a.w].row)
  }

  /** Adverts that nothing held back but the size of the queue. */
  predicate TurnsAway(s: System, cfg: Config, a: Action) {
    && a.AdmitJob? && |s.queue.jobs| >= cfg.maxQueuedUploads
    && !IsBlocked(s.log, a.job, a.now, cfg.minReuploadSeconds)
    && !IsCooling(s.log, s.queue.jobs, a.job.nodePublicKey, a.now) && !HasJob(s.queue.jobs, a.job.nodePublicKey)
  }

  /** How many of the first `i` actions complete a job, give one up, or turn an advert away. */
  function Completed(actions: seq<Action>, i: nat): nat
    requires i <= |actions|
  {
    if i == 0 then 0 else Completed(actions, i - 1) + if Completes(actions[i - 1]) then 1 else 0
  }

  function GivenUp(trace: seq<System>, actions: seq<Action>, i: nat): nat
    requires i <= |actions| <= |trace|
  {
    if i == 0 then 0 else GivenUp(trace, actions, i - 1) + if GivesUp(trace[i - 1], actions[i - 1]) then 1 else 0
  }

  function TurnedAway(trace: seq<System>, actions: seq<Action>, cfg: Config, i: nat): nat
    requires i <= |actions| <= |trace|
  {
    if i == 0 then 0 else TurnedAway(trace, actions, cfg, i - 1) + if TurnsAway(trace[i - 1], cfg, actions[i - 1]) then 1 else 0
  }

  /** The three counters of the statistics count exactly these. */
  lemma {:induction false} CountersExactly(trace: seq<System>, actions: seq<Action>, cfg: Config, i: nat)
    requires Run(trace, actions, cfg) && i <= |actions|
    ensures trace[i].queue.completed == Completed(actions, i)
    ensures trace[i].queue.dropped == GivenUp(trace, actions, i)
    ensures trace[i].queue.capacityRejected == TurnedAway(trace, actions, cfg, i)
  {
    hide Inv, Next, TurnsAway, Completes, GivesUp, Admission;
    if i > 0 {
      assert Follows(trace[i - 1], cfg, actions[i - 1], trace[i]);
      CountersExactly(trace, actions, cfg, i - 1);
      RunKeepsInv(trace, actions, cfg, i - 1);
      TurnedAwayExactly(trace, actions, cfg, i - 1);
      CountStep(trace[i - 1], cfg, actions[i - 1]);
    }
  }

  lemma TurnedAwayExactly(trace: seq<System>, actions: seq<Action>, cfg: Config, i: nat)
    requires Run(trace, actions, cfg) && i < |actions|
    ensures TurnsAway(trace[i], cfg, actions[i])
       <==> actions[i].AdmitJob? && Admission(trace[i].queue, cfg, actions[i].job, actions[i].now).CapacityRejected?
  {
    hide Next, IsBlocked, IsCooling, HasJob, Admission;
    assert Follows(trace[i], cfg, actions[i], trace[i + 1]);
    if actions[i].AdmitJob? { AdmitInTime(trace[i], cfg, actions[i]); VerdictExactly(trace, actions, cfg, i, actions[i].job, actions[i].now); }
  }

  lemma AdmitInTime(s: System, cfg: Config, a: Action)
    requires Enabled(s, cfg, a) && a.AdmitJob?
    ensures a.now >= s.clock
  {
  }

  lemma CountStep(s: System, cfg: Config, a: Action)
    requires Inv(s, cfg) && Enabled(s, cfg, a)
    ensures var q, after := s.queue, Next(s, cfg, a).queue;
            && after.completed == q.completed + (if Completes(a) then 1 else 0)
            && after.dropped == q.dropped + (if GivesUp(s, a) then 1 else 0)
            && after.capacityRejected
               == q.capacityRejected + (if a.AdmitJob? && Admission(q, cfg, a.job, a.now).CapacityRejected? then 1 else 0)
  {
    hide QueueInv, Held, PostsCounted, Delayed, FindProcessing, Backoff, CooledNodes, TrimTo, Trimmed, Admission, Keep, LiveNodes,
      RemoveAt, NodeOf, IsLastPost;
    if a.Begin? { BeginStep(s, cfg, a); }
    if a.Settle? {
      HeldRow(s, cfg, a.w);
      PostsOfHeld(s, cfg, a.w);
    }
  }
}
