/**
 Pairing unlabelled write events with callbacks (src/target_mqtt/tracker.rs and
 connection.rs). The client's request channel is a FIFO of bounded capacity: a send
 completes as soon as there is room and waits otherwise. An `Outgoing` event reports
 that its oldest request was written, without saying which one.
 */
module WriteTracking {
  import opened Common

  const TARGET_MAX_PENDING: nat := 1_000

  /** One drain-free stretch of the connection. Callback `id` belongs to publish `id`. */
  datatype Link = Link(
    capacity: nat,
    tracker: seq<nat>,
    channel: seq<nat>,
    submitting: Option<nat>,   // holds the submit lock: registered, not yet in the channel
    // History, never read by a step:
    used: set<nat>,            // every id ever registered
    registered: seq<nat>,      // registrations that were not withdrawn
    sent: seq<nat>,            // what entered the channel
    completed: seq<nat>,       // the callback each event so far completed
    orphans: set<nat>)         // registered, then abandoned before entering the channel

  datatype Action =
    | Register(id: nat)
    | EnterChannel
    | SendFails
    | AbandonUnsent            // the caller gives up while its send waits for room in the full channel
    | AbandonSent(id: nat)     // the caller gives up later: nothing here changes
    | Written                  // one Outgoing::Publish event

  function Init(capacity: nat): Link {
    Link(capacity, [], [], None, {}, [], [], [], {})
  }

  predicate Enabled(l: Link, a: Action) {
    match a
    case Register(id) => l.submitting.None? && id !in l.used
    case EnterChannel => l.submitting.Some? && |l.channel| < l.capacity
    case SendFails => l.submitting.Some?
    case AbandonUnsent => l.submitting.Some? && |l.channel| >= l.capacity
    case AbandonSent(id) => id in l.sent
    case Written => l.channel != []
  }

  /** What is left of `s` without the ids in `drop`, in order. */
  function Except(s: seq<nat>, drop: set<nat>): (r: seq<nat>)
    ensures |r| <= |s|
  {
    KeepItems(s, Items(s) - drop)
  }

  function Next(l: Link, a: Action): Link
    requires Enabled(l, a)
  {
    match a
    case Register(id) =>
      l.(tracker := l.tracker + [id], submitting := Some(id), used := l.used + {id}, registered := l.registered + [id])
    case EnterChannel =>
      l.(channel := l.channel + [l.submitting.value], submitting := None, sent := l.sent + [l.submitting.value])
    case SendFails =>
      l.(tracker := Except(l.tracker, {l.submitting.value}), submitting := None,
         registered := Except(l.registered, {l.submitting.value}))
    case AbandonUnsent => l.(submitting := None, orphans := l.orphans + {l.submitting.value})
    case AbandonSent(_) => l
    case Written =>
      if l.tracker == [] then l.(channel := l.channel[1..])
      else l.(channel := l.channel[1..], tracker := l.tracker[1..], completed := l.completed + [l.tracker[0]])
  }

  function Pending(l: Link): seq<nat> {
    if l.submitting.Some? then [l.submitting.value] else []
  }

  predicate Inv(l: Link) {
    && |l.completed| <= |l.sent| && |l.completed| <= |l.registered|
    && |l.channel| <= l.capacity
    && l.tracker == l.registered[|l.completed|..]
    && l.channel == l.sent[|l.completed|..]
    && l.completed == l.registered[..|l.completed|]
    && Distinct(l.registered)
    && (forall x :: x in l.registered ==> x in l.used)
    && (forall x :: x in l.orphans ==> x in l.used)
    && Except(l.registered, l.orphans) == l.sent + Pending(l)
    && (l.submitting.Some? ==> l.registered != [] && l.registered[|l.registered| - 1] == l.submitting.value)
  }

  // ---- Facts about dropping ids ----

  lemma ExceptAppend(s: seq<nat>, x: nat, drop: set<nat>)
    ensures Except(s + [x], drop) == Except(s, drop) + if x in drop then [] else [x]
  {
    var keep := Items(s + [x]) - drop;
    KeepAppend(s, x, keep);
    KeepAgrees(s, keep, Items(s) - drop);
  }

  lemma ExceptMembers(s: seq<nat>, drop: set<nat>)
    ensures forall x :: x in Except(s, drop) ==> x in s && x !in drop
  {
  }

  lemma ExceptAgrees(s: seq<nat>, drop: set<nat>, other: set<nat>)
    requires forall x :: x in s ==> (x in drop <==> x in other)
    ensures Except(s, drop) == Except(s, other)
  {
    KeepAgrees(s, Items(s) - drop, Items(s) - other);
  }

  lemma ExceptNone(s: seq<nat>, drop: set<nat>)
    requires forall x :: x in s ==> x !in drop
    ensures Except(s, drop) == s
  {
    KeepSuffix(s, Items(s) - drop, 0);
  }

  lemma {:induction false} KeptItemIsAtOrAfter(s: seq<nat>, keep: set<nat>, k: nat)
    requires k < |KeepItems(s, keep)|
    ensures KeepItems(s, keep)[k] in s[k..]
  {
    if s[0] !in keep {
      KeptItemIsAtOrAfter(s[1..], keep, k);
      assert s[1..][k..] == s[k + 1..];
    } else if k > 0 {
      KeptItemIsAtOrAfter(s[1..], keep, k - 1);
      assert s[1..][k - 1..] == s[k..];
    }
  }

  predicate AllKept(s: seq<nat>, keep: set<nat>, n: nat)
    requires n <= |s|
  {
    forall j :: 0 <= j < n ==> s[j] in keep
  }

  lemma AllKeptStep(s: seq<nat>, keep: set<nat>, n: nat)
    requires 0 < n <= |s|
    ensures AllKept(s, keep, n) <==> s[0] in keep && AllKept(s[1..], keep, n - 1)
  {
    if AllKept(s[1..], keep, n - 1) {
      assert forall j :: 0 < j < n ==> s[j] == s[1..][j - 1];
    }
  }

  lemma DistinctTail(s: seq<nat>, k: nat)
    requires Distinct(s) && k < |s|
    ensures s[k] !in s[k + 1..] && Distinct(s[1..])
  {
  }

  /** The k-th kept item is the k-th item exactly when nothing up to there was dropped. */
  lemma {:induction false} KeptInPlace(s: seq<nat>, keep: set<nat>, k: nat)
    requires Distinct(s) && k < |KeepItems(s, keep)| <= |s|
    ensures KeepItems(s, keep)[k] == s[k] <==> AllKept(s, keep, k + 1)
  {
    hide KeepItems, Distinct, AllKept;
    KeepStep(s, keep);
    DistinctTail(s, k);
    AllKeptStep(s, keep, k + 1);
    if s[0] !in keep {
      KeptItemIsAtOrAfter(s[1..], keep, k);
      assert s[1..][k..] == s[k + 1..];
    } else if k > 0 {
      KeptInPlace(s[1..], keep, k - 1);
    } else {
      NoneKept(s[1..], keep);
    }
  }

  lemma NoneKept(s: seq<nat>, keep: set<nat>)
    ensures AllKept(s, keep, 0)
  {
  }

  lemma ExceptInPlace(s: seq<nat>, drop: set<nat>, k: nat)
    requires Distinct(s) && k < |Except(s, drop)|
    ensures Except(s, drop)[k] == s[k] <==> forall j :: 0 <= j <= k ==> s[j] !in drop
  {
    KeptInPlace(s, Items(s) - drop, k);
  }

  /** A failed submission is always the last entry, so withdrawing it drops exactly the back. */
  lemma FailedEntryIsLast(l: Link)
    requires Inv(l) && l.submitting.Some?
    ensures var id := l.submitting.value;
            && l.tracker != [] && l.tracker[|l.tracker| - 1] == id
            && Except(l.tracker, {id}) == l.tracker[..|l.tracker| - 1]
            && (l.tracker[0] == id <==> |l.tracker| == 1)
  {
    var id := l.submitting.value;
    var done := |l.completed|;
    assert done < |l.registered| by {
      assert |Except(l.registered, l.orphans)| == |l.sent| + 1;
    }
    hide Except;
    assert l.tracker[|l.tracker| - 1] == id;
    assert Distinct(l.tracker) by {
      assert forall i :: 0 <= i < |l.tracker| ==> l.tracker[i] == l.registered[done + i];
    }
    hide Inv;
    WithoutLast(l.tracker, id);
  }

  lemma WithoutLast(s: seq<nat>, id: nat)
    requires s != [] && Distinct(s) && s[|s| - 1] == id
    ensures Except(s, {id}) == s[..|s| - 1]
  {
    var front := s[..|s| - 1];
    assert s == front + [id];
    ExceptAppend(front, id, {id});
    ExceptNone(front, {id});
  }

  // ---- One step ----

  lemma RegisterStep(l: Link, a: Action)
    requires Inv(l) && Enabled(l, a) && a.Register?
    ensures Inv(Next(l, a))
  {
    ExceptAppend(l.registered, a.id, l.orphans);
  }

  /** The submission in progress is the last genuine registration. */
  lemma FrontIsSent(l: Link)
    requires Inv(l) && l.submitting.Some?
    ensures var front := l.registered[..|l.registered| - 1];
            && l.registered == front + [l.submitting.value]
            && l.submitting.value !in l.orphans
            && Except(front, l.orphans) == l.sent
            && |l.completed| <= |front|
  {
    var id := l.submitting.value;
    var front := l.registered[..|l.registered| - 1];
    assert l.registered == front + [id];
    ExceptMembers(l.registered, l.orphans);
    assert (l.sent + [id])[|l.sent|] in Except(l.registered, l.orphans);
    ExceptAppend(front, id, l.orphans);
    var kept := Except(front, l.orphans);
    assert kept == (kept + [id])[..|kept|] && l.sent == (l.sent + [id])[..|l.sent|];
  }

  lemma FailedState(l: Link)
    requires Inv(l) && Enabled(l, SendFails)
    ensures l.tracker != [] && l.registered != []
    ensures Next(l, SendFails) == l.(tracker := l.tracker[..|l.tracker| - 1], submitting := None,
                                     registered := l.registered[..|l.registered| - 1])
  {
    hide Except;
    FailedEntryIsLast(l);
    WithoutLast(l.registered, l.submitting.value);
  }

  lemma FailStep(l: Link, a: Action)
    requires Inv(l) && Enabled(l, a) && a.SendFails?
    ensures Inv(Next(l, a))
  {
    hide Except, Next;
    FailedState(l);
    FrontIsSent(l);
    assert l.sent + [] == l.sent;
  }

  lemma OrphanStep(l: Link, a: Action)
    requires Inv(l) && Enabled(l, a) && a.AbandonUnsent?
    ensures Inv(Next(l, a))
  {
    var id := l.submitting.value;
    var front := l.registered[..|l.registered| - 1];
    FrontIsSent(l);
    ExceptAppend(front, id, l.orphans + {id});
    ExceptAgrees(front, l.orphans, l.orphans + {id});
  }

  lemma OtherStep(l: Link, a: Action)
    requires Inv(l) && Enabled(l, a) && (a.EnterChannel? || a.AbandonSent? || a.Written?)
    ensures Inv(Next(l, a))
    ensures a.Written? ==> l.tracker != []
  {
    assert |l.sent| <= |Except(l.registered, l.orphans)| <= |l.registered|;
  }

  /** The callback at the front belongs to the oldest request exactly when nothing up to it was orphaned. */
  lemma FrontIsPaired(l: Link)
    requires Inv(l) && l.channel != []
    ensures |l.completed| < |l.registered| && l.tracker != []
    ensures l.tracker[0] == l.channel[0] <==> forall m :: 0 <= m <= |l.completed| ==> l.registered[m] !in l.orphans
  {
    var k := |l.completed|;
    assert |l.sent| <= |Except(l.registered, l.orphans)| <= |l.registered|;
    assert Except(l.registered, l.orphans)[k] == l.sent[k];
    ExceptInPlace(l.registered, l.orphans, k);
  }

  lemma StepKeepsInv(l: Link, a: Action)
    requires Inv(l) && Enabled(l, a)
    ensures Inv(Next(l, a))
  {
    hide Inv, Next;
    match a {
      case Register(_) => RegisterStep(l, a);
      case SendFails => FailStep(l, a);
      case AbandonUnsent => OrphanStep(l, a);
      case _ => OtherStep(l, a);
    }
  }

  // ---- Whole drain-free runs ----

  predicate Follows(l: Link, a: Action, l': Link) {
    Enabled(l, a) && l' == Next(l, a)
  }

  predicate Run(trace: seq<Link>, actions: seq<Action>, capacity: nat) {
    && |trace| == |actions| + 1
    && trace[0] == Init(capacity)
    && forall i {:trigger actions[i]} :: 0 <= i < |actions| ==> Follows(trace[i], actions[i], trace[i + 1])
  }

  lemma {:induction false} RunKeepsInv(trace: seq<Link>, actions: seq<Action>, capacity: nat, i: nat)
    requires Run(trace, actions, capacity) && i < |trace|
    ensures Inv(trace[i]) && trace[i].capacity == capacity
  {
    if i == 0 {
    } else {
      hide Inv;
      RunKeepsInv(trace, actions, capacity, i - 1);
      assert Follows(trace[i - 1], actions[i - 1], trace[i]);
      StepKeepsInv(trace[i - 1], actions[i - 1]);
    }
  }

  /** At step `j` the caller of submission `x` gave up before it entered the channel. */
  predicate GaveUp(trace: seq<Link>, actions: seq<Action>, j: nat, x: nat) {
    j < |trace| && j < |actions| && actions[j].AbandonUnsent? && trace[j].submitting == Some(x)
  }

  lemma OrphanedBy(l: Link, a: Action, l': Link)
    requires Inv(l) && Follows(l, a, l')
    ensures a.AbandonUnsent? ==> l.submitting.Some? && |l.channel| == l.capacity
    ensures l'.orphans == if a.AbandonUnsent? then l.orphans + {l.submitting.value} else l.orphans
  {
  }

  /** Giving up unsent happens only in front of a full channel. */
  lemma GivesUpWhenFull(trace: seq<Link>, actions: seq<Action>, capacity: nat, j: nat)
    requires Run(trace, actions, capacity) && j < |actions| && actions[j].AbandonUnsent?
    ensures |trace[j].channel| == capacity && trace[j].submitting.Some? && GaveUp(trace, actions, j, trace[j].submitting.value)
  {
    RunKeepsInv(trace, actions, capacity, j);
    assert Follows(trace[j], actions[j], trace[j + 1]);
    OrphanedBy(trace[j], actions[j], trace[j + 1]);
  }

  lemma GaveUpAt(trace: seq<Link>, actions: seq<Action>, j: nat)
    requires j < |trace| && j < |actions|
    ensures forall x: nat :: GaveUp(trace, actions, j, x) <==> actions[j].AbandonUnsent? && trace[j].submitting == Some(x)
  {
  }

  lemma OrphanedAt(trace: seq<Link>, actions: seq<Action>, capacity: nat, i: nat)
    requires Run(trace, actions, capacity) && 0 < i < |trace|
    ensures forall x: nat :: x in trace[i].orphans <==> x in trace[i - 1].orphans || GaveUp(trace, actions, i - 1, x)
  {
    RunKeepsInv(trace, actions, capacity, i - 1);
    assert Follows(trace[i - 1], actions[i - 1], trace[i]);
    hide Inv, Run, Follows;
    OrphanedBy(trace[i - 1], actions[i - 1], trace[i]);
    GaveUpAt(trace, actions, i - 1);
  }

  lemma {:induction false} OrphansGaveUp(trace: seq<Link>, actions: seq<Action>, capacity: nat, i: nat)
    requires Run(trace, actions, capacity) && i < |trace|
    ensures forall x :: x in trace[i].orphans <==> exists j :: 0 <= j < i && GaveUp(trace, actions, j, x)
  {
    if i > 0 {
      hide GaveUp;
      OrphansGaveUp(trace, actions, capacity, i - 1);
      OrphanedAt(trace, actions, capacity, i);
    }
  }

  /** The k-th event completed the callback of the very publish it wrote exactly when no caller of a
      registration up to the k-th gave up while its send waited in front of the full channel. */
  lemma PairingExact(trace: seq<Link>, actions: seq<Action>, capacity: nat, i: nat, k: nat)
    requires Run(trace, actions, capacity) && i < |trace| && k < |trace[i].completed|
    ensures var l := trace[i];
            && k < |l.sent| && k < |l.registered| && l.completed[k] == l.registered[k]
            && (l.completed[k] == l.sent[k] <==>
                forall j, m :: 0 <= j < i && 0 <= m <= k ==> !GaveUp(trace, actions, j, l.registered[m]))
  {
    OrphansGaveUp(trace, actions, capacity, i);
    PairedAt(trace, actions, capacity, i, k);
    hide Run, GaveUp;
  }

  /** How many of the first `k` registrations were abandoned unsent. */
  function OrphansBefore(l: Link, k: nat): nat
    requires k <= |l.registered|
  {
    |KeepItems(l.registered[..k], l.orphans)|
  }

  lemma KeptAt(s: seq<nat>, drop: set<nat>, k: nat)
    requires k < |s| && s[k] !in drop
    ensures var n := k - |KeepItems(s[..k], drop)|; 0 <= n < |Except(s, drop)| && Except(s, drop)[n] == s[k]
  {
    var keep := Items(s) - drop;
    assert s == s[..k] + ([s[k]] + s[k + 1..]);
    KeepConcat(s[..k], [s[k]] + s[k + 1..], keep);
    KeepConcat([s[k]], s[k + 1..], keep);
    assert forall x :: x in s[..k] ==> x in s;
    KeepCounts(s[..k], keep, drop);
    assert KeepItems([s[k]], keep) == [s[k]];
  }

  /** Whatever was abandoned, no callback is ever completed too early: the callback that the k-th event
      completes belongs to a caller that gave up unsent, or to the publish written as many events before
      as registrations up to it were abandoned unsent. */
  lemma NeverTooEarly(trace: seq<Link>, actions: seq<Action>, capacity: nat, i: nat, k: nat)
    requires Run(trace, actions, capacity) && i < |trace| && k < |trace[i].completed|
    ensures var l := trace[i];
            && k < |l.registered| && k < |l.sent|
            && (l.completed[k] in l.orphans
                || (OrphansBefore(l, k) <= k && l.sent[k - OrphansBefore(l, k)] == l.completed[k]))
    ensures trace[i].completed[k] in trace[i].orphans || trace[i].completed[k] in trace[i].sent[..k + 1]
  {
    var l := trace[i];
    RunKeepsInv(trace, actions, capacity, i);
    InOrder(l, k);
    hide Run, Inv, Except, KeepItems;
    if l.registered[k] !in l.orphans {
      KeptAt(l.registered, l.orphans, k);
      assert l.sent[k - OrphansBefore(l, k)] == l.sent[..k + 1][k - OrphansBefore(l, k)];
    }
  }

  lemma InOrder(l: Link, k: nat)
    requires Inv(l) && k < |l.completed|
    ensures k < |l.registered| && k < |l.sent| && l.completed[k] == l.registered[k]
    ensures forall n :: 0 <= n < |Except(l.registered, l.orphans)| && n < |l.sent| ==> Except(l.registered, l.orphans)[n] == l.sent[n]
  {
    hide Except;
  }

  lemma PairedAt(trace: seq<Link>, actions: seq<Action>, capacity: nat, i: nat, k: nat)
    requires Run(trace, actions, capacity) && i < |trace| && k < |trace[i].completed|
    ensures var l := trace[i];
            && k < |l.sent| && k < |l.registered| && l.completed[k] == l.registered[k]
            && (l.completed[k] == l.sent[k] <==> forall m :: 0 <= m <= k ==> l.registered[m] !in l.orphans)
  {
    RunKeepsInv(trace, actions, capacity, i);
    ExceptInPlace(trace[i].registered, trace[i].orphans, k);
  }

  /** While callers only give up after their request entered the channel, the tracker is the channel
      plus the submission in progress at its back, every event finds its own callback, and failed sends
      and abandoned waiters leave no trace. */
  lemma AlignedUnlessAbandonedUnsent(trace: seq<Link>, actions: seq<Action>, capacity: nat, i: nat)
    requires Run(trace, actions, capacity) && i < |trace|
    requires forall j :: 0 <= j < i ==> !actions[j].AbandonUnsent?
    ensures trace[i].tracker == trace[i].channel + Pending(trace[i])
    ensures trace[i].completed <= trace[i].sent
  {
    var l := trace[i];
    RunKeepsInv(trace, actions, capacity, i);
    OrphansGaveUp(trace, actions, capacity, i);
    hide Run;
    assert l.orphans == {};
    ExceptNone(l.registered, {});
    assert l.tracker == (l.sent + Pending(l))[|l.completed|..];
    assert l.completed == (l.sent + Pending(l))[..|l.completed|];
  }

  /** As long as no submission ever meets a full channel, whoever gives up and whenever, every event
      finds its own callback. */
  lemma AlignedWhileThereIsRoom(trace: seq<Link>, actions: seq<Action>, capacity: nat, i: nat)
    requires Run(trace, actions, capacity) && i < |trace|
    requires forall j :: 0 <= j < i && trace[j].submitting.Some? ==> |trace[j].channel| < capacity
    ensures trace[i].tracker == trace[i].channel + Pending(trace[i])
    ensures trace[i].completed <= trace[i].sent
  {
    forall j | 0 <= j < i ensures !actions[j].AbandonUnsent? {
      if actions[j].AbandonUnsent? {
        GivesUpWhenFull(trace, actions, capacity, j);
      }
    }
    hide Run;
    AlignedUnlessAbandonedUnsent(trace, actions, capacity, i);
  }

  // ---- A run that goes wrong ----

  /** `registered` and `sent` so far, of which `done` were written. */
  function Stage(capacity: nat, registered: seq<nat>, sent: seq<nat>, submitting: Option<nat>, used: set<nat>, orphans: set<nat>, done: nat): Link
    requires done <= |registered| && done <= |sent|
  {
    Link(capacity, registered[done..], sent[done..], submitting, used, registered, sent, registered[..done], orphans)
  }

  function UpTo(n: nat): (r: seq<nat>)
    ensures |r| == n && forall i :: 0 <= i < n ==> r[i] == i
  {
    if n == 0 then [] else UpTo(n - 1) + [n - 1]
  }

  function Below(n: nat): set<nat> {
    set x | x in UpTo(n)
  }

  predicate Reaches(trace: seq<Link>, actions: seq<Action>, capacity: nat, l: Link) {
    Run(trace, actions, capacity) && trace[|trace| - 1] == l
  }

  lemma OneMore(trace: seq<Link>, actions: seq<Action>, capacity: nat, l: Link, a: Action)
    returns (trace': seq<Link>, actions': seq<Action>)
    requires Reaches(trace, actions, capacity, l) && Enabled(l, a)
    ensures Reaches(trace', actions', capacity, Next(l, a))
  {
    trace', actions' := trace + [Next(l, a)], actions + [a];
    forall i | 0 <= i < |actions'| ensures Follows(trace'[i], actions'[i], trace'[i + 1]) {
      if i < |actions| { assert Follows(trace[i], actions[i], trace[i + 1]); }
    }
  }

  /** The first `n` publishes enter the channel and nothing is written. */
  lemma {:induction false} FillingRun(capacity: nat, n: nat) returns (trace: seq<Link>, actions: seq<Action>)
    requires n <= capacity
    ensures Reaches(trace, actions, capacity, Stage(capacity, UpTo(n), UpTo(n), None, Below(n), {}, 0))
  {
    hide Reaches;
    if n == 0 {
      trace, actions := StartRun(capacity);
      assert UpTo(0) == [] && Below(0) == {};
    } else {
      trace, actions := FillingRun(capacity, n - 1);
      var l := Stage(capacity, UpTo(n - 1), UpTo(n - 1), None, Below(n - 1), {}, 0);
      trace, actions := OneMore(trace, actions, capacity, l, Register(n - 1));
      trace, actions := OneMore(trace, actions, capacity, Next(l, Register(n - 1)), EnterChannel);
      assert Below(n - 1) + {n - 1} == Below(n);
      assert Next(Next(l, Register(n - 1)), EnterChannel) == Stage(capacity, UpTo(n), UpTo(n), None, Below(n), {}, 0);
    }
  }

  lemma StartRun(capacity: nat) returns (trace: seq<Link>, actions: seq<Action>)
    ensures Reaches(trace, actions, capacity, Stage(capacity, [], [], None, {}, {}, 0))
  {
    trace, actions := [Init(capacity)], [];
  }

  lemma {:induction false} WritingRun(
    trace: seq<Link>, actions: seq<Action>, capacity: nat, registered: seq<nat>, sent: seq<nat>, used: set<nat>, orphans: set<nat>,
    from: nat, to: nat) returns (trace': seq<Link>, actions': seq<Action>)
    requires from <= to <= |sent| && |sent| <= |registered|
    requires Reaches(trace, actions, capacity, Stage(capacity, registered, sent, None, used, orphans, from))
    ensures Reaches(trace', actions', capacity, Stage(capacity, registered, sent, None, used, orphans, to))
    decreases |sent| - from
  {
    trace', actions' := trace, actions;
    if from < to {
      hide Reaches;
      var l := Stage(capacity, registered, sent, None, used, orphans, from);
      trace', actions' := OneMore(trace, actions, capacity, l, Written);
      assert registered[..from] + [registered[from]] == registered[..from + 1];
      assert Next(l, Written) == Stage(capacity, registered, sent, None, used, orphans, from + 1);
      trace', actions' := WritingRun(trace', actions', capacity, registered, sent, used, orphans, from + 1, to);
    }
  }

  /** For every capacity: once the channel is full a caller waits, gives up, and leaves its entry behind.
      The next publish enters the channel after one write, and its own write completes the callback of
      the caller that gave up, leaving its own callback waiting with nothing left to write. */
  lemma AbandonedUnsentMisleads(capacity: nat)
    requires capacity > 0
    ensures exists trace, actions, l :: Reaches(trace, actions, capacity, l) && Misled(l)
  {
    var trace, actions, l := MisleadingRun(capacity);
  }

  /** One write too far: the callback of the caller that gave up was completed by the write of the next
      publish, whose own callback is left with nothing to wait for. */
  predicate Misled(l: Link) {
    && l.sent == UpTo(l.capacity) + [l.capacity + 1] && l.completed == UpTo(l.capacity) + [l.capacity]
    && l.channel == [] && l.tracker == [l.capacity + 1]
  }

  lemma MisleadingRun(capacity: nat) returns (trace: seq<Link>, actions: seq<Action>, l: Link)
    requires capacity > 0
    ensures Reaches(trace, actions, capacity, l) && Misled(l) && l.capacity == capacity
  {
    hide Reaches;
    var full := UpTo(capacity);
    var used := Below(capacity);
    trace, actions := FillingRun(capacity, capacity);
    var l0 := Stage(capacity, full, full, None, used, {}, 0);
    trace, actions := OneMore(trace, actions, capacity, l0, Register(capacity));
    var l1 := Next(l0, Register(capacity));
    trace, actions := OneMore(trace, actions, capacity, l1, AbandonUnsent);
    var l2 := Next(l1, AbandonUnsent);
    trace, actions := OneMore(trace, actions, capacity, l2, Written);
    var l3 := Next(l2, Written);
    trace, actions := OneMore(trace, actions, capacity, l3, Register(capacity + 1));
    var l4 := Next(l3, Register(capacity + 1));
    trace, actions := OneMore(trace, actions, capacity, l4, EnterChannel);
    var registered, sent := full + [capacity] + [capacity + 1], full + [capacity + 1];
    assert Next(l4, EnterChannel) == Stage(capacity, registered, sent, None, used + {capacity} + {capacity + 1}, {capacity}, 1);
    trace, actions := WritingRun(trace, actions, capacity, registered, sent, used + {capacity} + {capacity + 1}, {capacity}, 1, capacity + 1);
    l := Stage(capacity, registered, sent, None, used + {capacity} + {capacity + 1}, {capacity}, capacity + 1);
    assert registered[..capacity + 1] == full + [capacity] && registered[capacity + 1..] == [capacity + 1];
  }

  // ---- The tracker as its code runs it ----

  class WriteTracker {
    var queue: seq<nat>

    constructor ()
      ensures queue == []
    {
      queue := [];
    }

    method Submit(id: nat)
      modifies this
      ensures queue == old(queue) + [id]
    {
      queue := queue + [id];
    }

    /** `retain` over the deque. */
    method Remove(id: nat)
      modifies this
      ensures queue == Except(old(queue), {id})
    {
      var kept := [];
      for i := 0 to |queue|
        invariant queue == old(queue) && kept == Except(queue[..i], {id})
      {
        assert queue[..i + 1] == queue[..i] + [queue[i]];
        ExceptAppend(queue[..i], queue[i], {id});
        if queue[i] != id {
          kept := kept + [queue[i]];
        }
      }
      assert queue[..|queue|] == queue;
      queue := kept;
    }

    method PopFront() returns (front: Option<nat>)
      modifies this
      ensures if old(queue) == [] then front == None && queue == [] else front == Some(old(queue)[0]) && queue == old(queue)[1..]
    {
      if queue == [] {
        return None;
      }
      front := Some(queue[0]);
      queue := queue[1..];
    }

    method Drain() returns (all: seq<nat>)
      modifies this
      ensures all == old(queue) && queue == []
    {
      all := queue;
      queue := [];
    }
  }

  // ---- The connection as its code runs it ----

  class RumqttTarget {
    var connected: bool
    var nextWriteId: nat
    var channel: seq<nat>
    const writes: WriteTracker
    /** The machine since the last drain. */
    ghost var link: Link

    ghost predicate Valid()
      reads this, writes
    {
      && Inv(link) && link.capacity == TARGET_MAX_PENDING && writes.queue == link.tracker && channel == link.channel
      && forall id :: id in link.used ==> id < nextWriteId
    }

    constructor ()
      ensures Valid() && fresh(writes) && link == Init(TARGET_MAX_PENDING) && !connected
    {
      connected, nextWriteId, channel := false, 0, [];
      writes := new WriteTracker();
      link := Init(TARGET_MAX_PENDING);
    }

    /** The first half of `publish`, up to registration under the submit lock. */
    method BeginPublish() returns (id: nat)
      requires Valid() && link.submitting.None?
      modifies this, writes
      ensures id == old(nextWriteId) && nextWriteId == id + 1 && id !in old(link).used
      ensures Valid() && link == Next(old(link), Register(id))
    {
      id := nextWriteId;
      nextWriteId := nextWriteId + 1;
      StepKeepsInv(link, Register(id));
      writes.Submit(id);
      link := Next(link, Register(id));
    }

    /** The second half: the request entered the channel, or its entry is withdrawn. */
    method FinishSend(id: nat, sent: bool)
      requires Valid() && link.submitting == Some(id)
      requires sent ==> |channel| < TARGET_MAX_PENDING
      modifies this, writes
      ensures Valid() && link == Next(old(link), if sent then EnterChannel else SendFails)
      ensures !sent ==> writes.queue == old(writes.queue)[..|old(writes.queue)| - 1]
    {
      hide Inv, Except;
      StepKeepsInv(link, if sent then EnterChannel else SendFails);
      FailedEntryIsLast(link);
      if sent {
        channel := channel + [id];
        link := Next(link, EnterChannel);
      } else {
        writes.Remove(id);
        link := Next(link, SendFails);
      }
    }

    /** The caller drops the future while its send waits: the submit lock is free again, the entry stays. */
    method AbandonSend(id: nat)
      requires Valid() && link.submitting == Some(id) && |channel| >= TARGET_MAX_PENDING
      modifies this
      ensures Valid() && link == Next(old(link), AbandonUnsent)
      ensures writes.queue == old(writes.queue) && channel == old(channel) && nextWriteId == old(nextWriteId)
    {
      StepKeepsInv(link, AbandonUnsent);
      link := Next(link, AbandonUnsent);
    }

    /** The event loop on one `Outgoing::Publish`: the oldest request was written. The callback is its own
        exactly when no registration up to this one was abandoned unsent. */
    method OnOutgoing() returns (callback: Option<nat>)
      requires Valid() && channel != []
      modifies this, writes
      ensures Valid() && link == Next(old(link), Written)
      ensures callback.Some? && callback.value == old(writes.queue)[0]
      ensures callback.value == old(channel)[0] <==>
        forall m :: 0 <= m <= |old(link).completed| && m < |old(link).registered| ==> old(link).registered[m] !in old(link).orphans
    {
      StepKeepsInv(link, Written);
      OtherStep(link, Written);
      FrontIsPaired(link);
      channel := channel[1..];
      callback := writes.PopFront();
      link := Next(link, Written);
    }

    /** A poll error or `stop`: every waiting callback is failed at once. */
    method FailAll() returns (failed: seq<nat>)
      requires Valid()
      modifies this, writes
      ensures !connected && failed == old(writes.queue) && writes.queue == []
    {
      connected := false;
      failed := writes.Drain();
    }
  }
}
