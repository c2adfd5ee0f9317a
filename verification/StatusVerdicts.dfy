/**
 The status guard's verdicts and evictions, said of the calls and of what was accepted
 and evicted before: which records it holds at any moment, and whose goes first.
 */
module StatusVerdicts {
  import opened Common
  import opened StatusGuards
  import opened StatusGuardLaws

  // ---- The schedule of sweeps ----

  /** A status with a timestamp sweeps when the last sweep is a minute or more ago. */
  function LastSweep(calls: seq<Call>): nat {
    if calls == [] then 0
    else
      var before, c := LastSweep(calls[..|calls| - 1]), calls[|calls| - 1];
      if c.timestamp.Some? && c.now >= before + 60_000 then c.now else before
  }

  /** A status received then is not swept by a sweep at `sweep`: it came no earlier, or less than 48 hours earlier. */
  predicate Outlives(receivedAt: nat, sweep: nat) {
    sweep <= receivedAt || sweep < Min(receivedAt + 172_800_000, 0xFFFF_FFFF_FFFF_FFFF)
  }

  predicate IsLastAccept(log: seq<Event>, p: int, key: string) {
    && 0 <= p < |log| && log[p].Accepted? && log[p].key == key
    && forall q :: p < q < |log| && log[q].Accepted? ==> log[q].key != key
  }

  /** The last status accepted of the observer, the observer not evicted since and the status not swept. */
  predicate Stands(log: seq<Event>, p: int, key: string, sweep: nat) {
    IsLastAccept(log, p, key) && Kept(log, p, key) && Outlives(log[p].at, sweep)
  }

  // ---- The record of one observer ----

  /** The record is that of the status the log stands for, and it was made less than a minute after the last sweep
      of its time. */
  ghost predicate KeyExact(g: Guard, log: seq<Event>, clock: nat, key: string) {
    && g.lastSweep <= clock
    && (forall p :: IsLastAccept(log, p, key) ==> log[p].at <= clock)
    && (key in g.latest ==>
          && (exists p :: Stands(log, p, key, g.lastSweep) && g.latest[key] == Record(log[p].timestamp, log[p].at))
          && g.latest[key].receivedAt < g.lastSweep + 60_000)
    && (forall p :: Stands(log, p, key, g.lastSweep) ==> key in g.latest)
  }

  lemma LastAcceptOnly(log: seq<Event>, p: int, q: int, key: string)
    requires IsLastAccept(log, p, key) && IsLastAccept(log, q, key)
    ensures p == q
  {
  }

  lemma LastAfter(log: seq<Event>, e: Event, p: int, key: string)
    ensures IsLastAccept(log + [e], p, key) <==>
              if e.Accepted? && e.key == key then p == |log| else IsLastAccept(log, p, key)
    ensures 0 <= p < |log| ==> (Kept(log + [e], p, key) <==> Kept(log, p, key) && e != Evicted(key))
  {
    var longer := log + [e];
    assert longer[|log|] == e && forall q :: 0 <= q < |log| ==> longer[q] == log[q];
  }

  /** Nothing about the observer is logged. */
  lemma OtherLogged(g: Guard, after: Guard, log: seq<Event>, clock: nat, now: nat, key: string, e: Event)
    requires KeyExact(g, log, clock, key) && now >= clock && after.lastSweep == g.lastSweep
    requires !(e.Accepted? && e.key == key) && e != Evicted(key)
    requires key in g.latest <==> key in after.latest
    requires key in g.latest ==> after.latest[key] == g.latest[key]
    ensures KeyExact(after, log + [e], now, key)
  {
    hide Kept, Outlives, IsLastAccept;
    var longer := log + [e];
    forall p ensures IsLastAccept(longer, p, key) <==> IsLastAccept(log, p, key) {
      LastAfter(log, e, p, key);
    }
    forall p | IsLastAccept(log, p, key) ensures 0 <= p < |log| && longer[p] == log[p] && (Kept(longer, p, key) <==> Kept(log, p, key)) {
      LastInRange(log, p, key);
      LastAfter(log, e, p, key);
    }
    forall p ensures Stands(longer, p, key, g.lastSweep) <==> Stands(log, p, key, g.lastSweep) {
    }
  }

  lemma LastInRange(log: seq<Event>, p: int, key: string)
    requires IsLastAccept(log, p, key)
    ensures 0 <= p < |log|
  {
  }

  lemma AcceptLogged(g: Guard, log: seq<Event>, key: string, timestamp: int, now: nat)
    requires g.lastSweep <= now < g.lastSweep + 60_000 && key in g.latest && g.latest[key] == Record(timestamp, now)
    ensures KeyExact(g, log + [Accepted(key, timestamp, now)], now, key)
  {
    var longer := log + [Accepted(key, timestamp, now)];
    forall p ensures IsLastAccept(longer, p, key) <==> p == |log| {
      LastAfter(log, Accepted(key, timestamp, now), p, key);
    }
    assert Stands(longer, |log|, key, g.lastSweep);
  }

  lemma EvictionLogged(g: Guard, log: seq<Event>, clock: nat, key: string)
    requires KeyExact(g, log, clock, key)
    requires forall p :: IsLastAccept(log, p, key) ==> log[p].at <= clock
    ensures KeyExact(Guard(g.latest - {key}, g.order, g.lastSweep), log + [Evicted(key)], clock, key)
  {
    var longer := log + [Evicted(key)];
    assert longer[|log|] == Evicted(key);
    forall p ensures IsLastAccept(longer, p, key) <==> IsLastAccept(log, p, key) {
      LastAfter(log, Evicted(key), p, key);
    }
  }

  lemma KeyExactOfOrder(g: Guard, h: Guard, log: seq<Event>, clock: nat, key: string)
    requires KeyExact(g, log, clock, key) && g.latest == h.latest && g.lastSweep == h.lastSweep
    ensures KeyExact(h, log, clock, key)
  {
  }

  /** A sweep removes exactly the records that do not outlive it. */
  lemma SweepExact(g: Guard, log: seq<Event>, clock: nat, now: nat, key: string)
    requires KeyExact(g, log, clock, key) && now >= clock
    ensures KeyExact(Sweep(g, now), log, now, key)
    ensures Sweep(g, now).lastSweep == if now >= g.lastSweep + 60_000 then now else g.lastSweep
    ensures Sweep(g, now).lastSweep <= now < Sweep(g, now).lastSweep + 60_000
  {
    hide KeepItems, Kept;
    var swept := Sweep(g, now);
    forall p | Stands(log, p, key, swept.lastSweep) ensures key in swept.latest {
      assert Stands(log, p, key, g.lastSweep);
      var q :| Stands(log, q, key, g.lastSweep) && g.latest[key] == Record(log[q].timestamp, log[q].at);
      LastAcceptOnly(log, p, q, key);
    }
    if key in swept.latest {
      var p :| Stands(log, p, key, g.lastSweep) && g.latest[key] == Record(log[p].timestamp, log[p].at);
      assert Stands(log, p, key, swept.lastSweep);
    }
  }

  // ---- One step ----

  lemma RecordedOthers(g: Guard, key: string, timestamp: int, now: nat, other: string)
    requires other != key
    ensures var r := Recorded(g, key, timestamp, now);
            r.lastSweep == g.lastSweep && (other in r.latest <==> other in g.latest)
            && (other in g.latest ==> r.latest[other] == g.latest[other])
  {
  }

  lemma StepExact(h: History, capacity: nat, c: Call, key: string)
    requires GuardInv(h.guard, capacity) && capacity > 0 && c.now >= h.clock && KeyExact(h.guard, h.log, h.clock, key)
    ensures KeyExact(Step(h, capacity, c).guard, Step(h, capacity, c).log, c.now, key)
  {
    hide KeyExact, GuardInv, Sweep, Recorded;
    var swept, log := Sweep(h.guard, c.now), h.log + [Swept(SweptKeys(h.guard, c))];
    if c.timestamp.None? {
      OtherLogged(h.guard, h.guard, h.log, h.clock, c.now, key, Swept(SweptKeys(h.guard, c)));
      assert Step(h, capacity, c).log == log;
    } else {
      SweepExact(h.guard, h.log, h.clock, c.now, key);
      OtherLogged(swept, swept, h.log, c.now, c.now, key, Swept(SweptKeys(h.guard, c)));
      if Stale(swept, c.key, c.timestamp.value) {
        assert Step(h, capacity, c).log == log;
      } else {
        AcceptedExact(swept, log, c, key);
        EvictedExact(h, capacity, c, key);
      }
    }
  }

  lemma AcceptedExact(swept: Guard, log: seq<Event>, c: Call, key: string)
    requires c.timestamp.Some? && KeyExact(swept, log, c.now, key) && swept.lastSweep <= c.now < swept.lastSweep + 60_000
    ensures KeyExact(Recorded(swept, c.key, c.timestamp.value, c.now), log + [Accepted(c.key, c.timestamp.value, c.now)], c.now, key)
  {
    hide KeyExact;
    if key == c.key {
      AcceptLogged(Recorded(swept, key, c.timestamp.value, c.now), log, key, c.timestamp.value, c.now);
    } else {
      RecordedOthers(swept, c.key, c.timestamp.value, c.now, key);
      OtherLogged(swept, Recorded(swept, c.key, c.timestamp.value, c.now), log, c.now, c.now, key,
        Accepted(c.key, c.timestamp.value, c.now));
    }
  }

  lemma EvictedExact(h: History, capacity: nat, c: Call, key: string)
    requires GuardInv(h.guard, capacity) && capacity > 0 && c.timestamp.Some? && Accepts(h.guard, c.key, c.timestamp, c.now)
    requires var log := h.log + [Swept(SweptKeys(h.guard, c))] + [Accepted(c.key, c.timestamp.value, c.now)];
             KeyExact(Recorded(Sweep(h.guard, c.now), c.key, c.timestamp.value, c.now), log, c.now, key)
    ensures KeyExact(Step(h, capacity, c).guard, Step(h, capacity, c).log, c.now, key)
  {
    hide KeyExact, GuardInv, Sweep, Recorded, SweptKeys;
    var r := Recorded(Sweep(h.guard, c.now), c.key, c.timestamp.value, c.now);
    var log := h.log + [Swept(SweptKeys(h.guard, c))] + [Accepted(c.key, c.timestamp.value, c.now)];
    if Evicts(h.guard, capacity, c) {
      assert Step(h, capacity, c).log == log + [Evicted(r.order[0])];
      if key == r.order[0] {
        AcceptsInTime(r, log, c.now, key);
        EvictionLogged(r, log, c.now, key);
        KeyExactOfOrder(Guard(r.latest - {key}, r.order, r.lastSweep), Evict(r), log + [Evicted(key)], c.now, key);
      } else {
        OtherLogged(r, Evict(r), log, c.now, c.now, key, Evicted(r.order[0]));
      }
    } else {
      assert Step(h, capacity, c).log == log;
    }
  }

  lemma AcceptsInTime(g: Guard, log: seq<Event>, clock: nat, key: string)
    requires KeyExact(g, log, clock, key)
    ensures forall p :: IsLastAccept(log, p, key) ==> log[p].at <= clock
  {
  }

  // ---- Runs ----

  lemma SweepsOnTime(g: Guard, capacity: nat, c: Call)
    requires g.lastSweep <= c.now
    ensures Next(g, capacity, c.key, c.timestamp, c.now).lastSweep
         == if c.timestamp.Some? && c.now >= g.lastSweep + 60_000 then c.now else g.lastSweep
  {
    hide KeepItems;
  }

  lemma {:induction false} RunExact(calls: seq<Call>, capacity: nat, key: string)
    requires InOrder(calls) && capacity > 0
    ensures var h := After(calls, capacity);
            KeyExact(h.guard, h.log, h.clock, key) && h.guard.lastSweep == LastSweep(calls)
  {
    if calls != [] {
      var before, c := calls[..|calls| - 1], calls[|calls| - 1];
      RunExact(before, capacity, key);
      ReachableInv(before, capacity);
      var h := After(before, capacity);
      SweptBefore(h, key);
      hide StatusGuardLaws.Inv, KeyExact, Next;
      GuardOf(h, capacity);
      StepExact(h, capacity, c, key);
      SweepsOnTime(h.guard, capacity, c);
    }
  }

  lemma SweptBefore(h: History, key: string)
    requires KeyExact(h.guard, h.log, h.clock, key)
    ensures h.guard.lastSweep <= h.clock
  {
  }

  lemma GuardOf(h: History, capacity: nat)
    requires StatusGuardLaws.Inv(h, capacity)
    ensures GuardInv(h.guard, capacity)
  {
  }

  /** In every run a status is refused if and only if the last one accepted of its observer, which no eviction and no sweep
      has removed since, carries a greater timestamp; a status without a timestamp is never refused. */
  lemma VerdictExactly(calls: seq<Call>, capacity: nat, c: Call)
    requires InOrder(calls + [c]) && capacity > 0
    ensures Accepts(After(calls, capacity).guard, c.key, c.timestamp, c.now)
       <==> c.timestamp.None? || !HasNewer(After(calls, capacity).log, c.key, LastSweep(calls + [c]), c.timestamp.value)
  {
    hide After, KeepItems, Kept, Outlives, LastSweep, HasNewer;
    assert calls == (calls + [c])[..|calls|];
    RunExact(calls, capacity, c.key);
    ReachableInv(calls, capacity);
    var all, h := calls + [c], After(calls, capacity);
    assert calls != [] ==> all[|calls| - 1].now <= all[|calls|].now;
    SweepsNow(calls, c);
    SweepExact(h.guard, h.log, h.clock, c.now, c.key);
    hide Sweep;
    if c.timestamp.Some? {
      StandingDecides(Sweep(h.guard, c.now), h.log, c.now, c.key, c.timestamp.value);
    }
  }

  lemma SweepsNow(calls: seq<Call>, c: Call)
    ensures LastSweep(calls + [c]) == if c.timestamp.Some? && c.now >= LastSweep(calls) + 60_000 then c.now else LastSweep(calls)
  {
    assert (calls + [c])[..|calls|] == calls;
  }

  predicate HasNewer(log: seq<Event>, key: string, sweep: nat, timestamp: int) {
    exists p :: 0 <= p < |log| && Stands(log, p, key, sweep) && log[p].timestamp > timestamp
  }

  lemma StandingDecides(g: Guard, log: seq<Event>, clock: nat, key: string, timestamp: int)
    requires KeyExact(g, log, clock, key)
    ensures Stale(g, key, timestamp) <==> HasNewer(log, key, g.lastSweep, timestamp)
  {
    hide Kept, Outlives;
    if Stale(g, key, timestamp) {
      var p :| Stands(log, p, key, g.lastSweep) && g.latest[key] == Record(log[p].timestamp, log[p].at);
      assert 0 <= p < |log|;
    }
    if p :| 0 <= p < |log| && Stands(log, p, key, g.lastSweep) && log[p].timestamp > timestamp {
      var q :| Stands(log, q, key, g.lastSweep) && g.latest[key] == Record(log[q].timestamp, log[q].at);
      LastAcceptOnly(log, p, q, key);
    }
  }

  // ---- Who is evicted ----

  /** `a` has been on record without a break since before `b` has. */
  predicate LongerHeld(log: seq<Event>, a: string, b: string) {
    exists p :: 0 <= p < |log| && IsAccept(log, p, a) && Held(log, p, a)
                && forall q :: 0 <= q < |log| && IsAccept(log, q, b) && Held(log, q, b) ==> p < q
  }

  predicate OnRecord(log: seq<Event>, key: string) {
    exists p :: 0 <= p < |log| && IsAccept(log, p, key) && Held(log, p, key)
  }

  predicate Ranked(order: seq<string>, log: seq<Event>) {
    forall i, j :: 0 <= i < j < |order| ==> LongerHeld(log, order[i], order[j])
  }

  lemma {:induction false} RankKept(order: seq<string>, log: seq<Event>, keep: set<string>)
    requires Ranked(order, log)
    ensures Ranked(KeepItems(order, keep), log)
  {
    hide LongerHeld;
    if order != [] {
      var rest := KeepItems(order[1..], keep);
      assert Ranked(order[1..], log);
      RankKept(order[1..], log, keep);
      forall j | 0 <= j < |rest| ensures LongerHeld(log, order[0], rest[j]) {
        assert rest[j] in order[1..];
        var k :| 0 <= k < |order[1..]| && order[1..][k] == rest[j];
        assert LongerHeld(log, order[0], order[k + 1]);
      }
    }
  }

  /** Two observers who stay on record keep their rank, whatever is accepted meanwhile. */
  lemma RankStays(log: seq<Event>, e: Event, a: string, b: string)
    requires LongerHeld(log, a, b)
    requires e != Evicted(a) && (e.Swept? ==> a !in e.keys)
    ensures LongerHeld(log + [e], a, b)
  {
    var p :| 0 <= p < |log| && IsAccept(log, p, a) && Held(log, p, a)
             && forall q :: 0 <= q < |log| && IsAccept(log, q, b) && Held(log, q, b) ==> p < q;
    var longer := log + [e];
    HeldAfter(log, [e], p, a);
    assert IsAccept(longer, p, a);
    forall q | 0 <= q < |longer| && IsAccept(longer, q, b) && Held(longer, q, b) ensures p < q {
      if q < |log| {
        HeldBefore(log, [e], q, b);
        assert IsAccept(log, q, b);
      }
    }
  }

  lemma RanksStay(order: seq<string>, log: seq<Event>, e: Event)
    requires Ranked(order, log)
    requires forall i :: 0 <= i < |order| ==> e != Evicted(order[i]) && (e.Swept? ==> order[i] !in e.keys)
    ensures Ranked(order, log + [e])
  {
    hide LongerHeld;
    forall i, j | 0 <= i < j < |order| ensures LongerHeld(log + [e], order[i], order[j]) {
      RankStays(log, e, order[i], order[j]);
    }
  }

  /** An observer that was not on record comes last. */
  lemma NewIsLast(order: seq<string>, log: seq<Event>, key: string, timestamp: int, now: nat)
    requires Ranked(order, log)
    requires (forall i :: 0 <= i < |order| ==> OnRecord(log, order[i])) && !OnRecord(log, key)
    ensures Ranked(order + [key], log + [Accepted(key, timestamp, now)])
  {
    hide LongerHeld;
    var e := Accepted(key, timestamp, now);
    RanksStay(order, log, e);
    forall i | 0 <= i < |order| ensures LongerHeld(log + [e], order[i], key) {
      var p :| 0 <= p < |log| && IsAccept(log, p, order[i]) && Held(log, p, order[i]);
      NewIsLater(log, p, order[i], key, e);
    }
  }

  lemma NewIsLater(log: seq<Event>, p: nat, a: string, key: string, e: Event)
    requires p < |log| && IsAccept(log, p, a) && Held(log, p, a) && e.Accepted? && e.key == key
    requires !OnRecord(log, key)
    ensures LongerHeld(log + [e], a, key)
  {
    var longer := log + [e];
    HeldAfter(log, [e], p, a);
    assert IsAccept(longer, p, a);
    forall q | 0 <= q < |longer| && IsAccept(longer, q, key) && Held(longer, q, key) ensures p < q {
      if q < |log| {
        HeldBefore(log, [e], q, key);
      }
    }
  }

  // ---- The order through a step ----

  lemma SweptRanked(h: History, capacity: nat, c: Call)
    requires StatusGuardLaws.Inv(h, capacity) && Ranked(h.guard.order, h.log) && c.timestamp.Some?
    ensures Ranked(Sweep(h.guard, c.now).order, h.log + [Swept(SweptKeys(h.guard, c))])
  {
    hide LongerHeld, Remembered, RecordsBacked, HeldCovered, LatestHeld, Monotone;
    var g := h.guard;
    var swept := Sweep(g, c.now);
    RankKept(g.order, h.log, swept.latest.Keys);
    SweepKeepsInv(g, capacity, c.now);
    forall i | 0 <= i < |swept.order| ensures swept.order[i] !in SweptKeys(g, c) {
      assert swept.order[i] in Items(swept.order);
    }
    RanksStay(swept.order, h.log, Swept(SweptKeys(g, c)));
  }

  /** After the sweep the observers on record are those held, and no others are. */
  lemma SweptHeld(h: History, capacity: nat, c: Call, key: string)
    requires StatusGuardLaws.Inv(h, capacity) && c.timestamp.Some? && c.now >= h.clock
    ensures var log := h.log + [Swept(SweptKeys(h.guard, c))];
            key in Sweep(h.guard, c.now).latest <==> OnRecord(log, key)
  {
    hide GuardInv, RecordsBacked, Remembered, Monotone, Sweep;
    var g := h.guard;
    var e := Swept(SweptKeys(g, c));
    var log := h.log + [e];
    if key in Sweep(g, c.now).latest {
      SweptPart(g, c.now);
      var p :| 0 <= p < |h.log| && IsAccept(h.log, p, key) && Held(h.log, p, key);
      HeldAfter(h.log, [e], p, key);
      assert IsAccept(log, p, key);
    }
    if p :| 0 <= p < |log| && IsAccept(log, p, key) && Held(log, p, key) {
      assert p < |h.log|;
      HeldBefore(h.log, [e], p, key);
      assert e in [e];
      assert IsAccept(h.log, p, key) && Covers(h.guard, h.log[p]);
    }
  }

  lemma SweptPart(g: Guard, now: nat)
    ensures Sweep(g, now).latest.Keys <= g.latest.Keys
  {
    hide KeepItems;
  }

  /** The order with the status accepted in this step, before an eviction. */
  lemma RecordedRanked(h: History, capacity: nat, c: Call)
    requires StatusGuardLaws.Inv(h, capacity) && Ranked(h.guard.order, h.log) && c.now >= h.clock
    requires c.timestamp.Some? && Accepts(h.guard, c.key, c.timestamp, c.now)
    ensures Ranked(Recorded(Sweep(h.guard, c.now), c.key, c.timestamp.value, c.now).order,
                   h.log + [Swept(SweptKeys(h.guard, c))] + [Accepted(c.key, c.timestamp.value, c.now)])
  {
    var swept := Sweep(h.guard, c.now);
    var log := h.log + [Swept(SweptKeys(h.guard, c))];
    SweptRanked(h, capacity, c);
    SweepKeepsInv(h.guard, capacity, c.now);
    forall key ensures key in swept.latest <==> OnRecord(log, key) {
      SweptHeld(h, capacity, c, key);
    }
    hide LongerHeld, Sweep, OnRecord, StatusGuardLaws.Inv, Ranked;
    if c.key in swept.latest {
      RanksStay(swept.order, log, Accepted(c.key, c.timestamp.value, c.now));
    } else {
      forall i | 0 <= i < |swept.order| ensures OnRecord(log, swept.order[i]) {
        assert swept.order[i] in Items(swept.order);
      }
      NewIsLast(swept.order, log, c.key, c.timestamp.value, c.now);
    }
  }

  lemma TailRanked(order: seq<string>, log: seq<Event>)
    requires Ranked(order, log) && order != [] && Distinct(order)
    ensures Ranked(order[1..], log + [Evicted(order[0])])
  {
    hide LongerHeld;
    assert Ranked(order[1..], log);
    RanksStay(order[1..], log, Evicted(order[0]));
  }

  lemma StepRanked(h: History, capacity: nat, c: Call)
    requires StatusGuardLaws.Inv(h, capacity) && capacity > 0 && Ranked(h.guard.order, h.log) && c.now >= h.clock
    ensures Ranked(Step(h, capacity, c).guard.order, Step(h, capacity, c).log)
  {
    hide Ranked, Sweep, SweptKeys, StatusGuardLaws.Inv;
    var swept, log := Sweep(h.guard, c.now), h.log + [Swept(SweptKeys(h.guard, c))];
    if c.timestamp.None? {
      NothingSwept(h.guard, c);
      RanksStay(h.guard.order, h.log, Swept({}));
      assert Step(h, capacity, c).log == h.log + [Swept({})];
    } else if !Accepts(h.guard, c.key, c.timestamp, c.now) {
      SweptRanked(h, capacity, c);
      assert Step(h, capacity, c).log == log;
    } else {
      RecordedRanked(h, capacity, c);
      var r, accepted := Recorded(swept, c.key, c.timestamp.value, c.now), log + [Accepted(c.key, c.timestamp.value, c.now)];
      if Evicts(h.guard, capacity, c) {
        OrderIsDistinct(h, capacity, c);
        TailRanked(r.order, accepted);
        assert Step(h, capacity, c).log == accepted + [Evicted(r.order[0])];
      } else {
        assert Step(h, capacity, c).log == accepted;
      }
    }
  }

  lemma NothingSwept(g: Guard, c: Call)
    requires c.timestamp.None?
    ensures SweptKeys(g, c) == {}
  {
  }

  lemma OrderIsDistinct(h: History, capacity: nat, c: Call)
    requires StatusGuardLaws.Inv(h, capacity) && c.timestamp.Some?
    ensures Distinct(Recorded(Sweep(h.guard, c.now), c.key, c.timestamp.value, c.now).order)
  {
    hide Sweep, Remembered, RecordsBacked, HeldCovered, LatestHeld, Monotone;
    SweepKeepsInv(h.guard, capacity, c.now);
    RecordKeepsOrder(Sweep(h.guard, c.now), capacity, c.key, c.timestamp.value, c.now);
  }

  lemma {:induction false} RunRanked(calls: seq<Call>, capacity: nat)
    requires InOrder(calls) && capacity > 0
    ensures Ranked(After(calls, capacity).guard.order, After(calls, capacity).log)
  {
    if calls != [] {
      var before, c := calls[..|calls| - 1], calls[|calls| - 1];
      RunRanked(before, capacity);
      ReachableInv(before, capacity);
      hide StatusGuardLaws.Inv, Ranked, Step;
      StepRanked(After(before, capacity), capacity, c);
    }
  }

  /** In every run the observer evicted to make room is the one that has been on record without a break for the longest
      time: before any other stays. */
  lemma EvictedIsOldest(calls: seq<Call>, capacity: nat, c: Call, key: string)
    requires InOrder(calls + [c]) && capacity > 0
    requires var h := After(calls, capacity); Evicts(h.guard, capacity, c) && key in Step(h, capacity, c).guard.latest
    ensures var h := After(calls, capacity);
            var log := Step(h, capacity, c).log;
            log != [] && log[|log| - 1].Evicted? && LongerHeld(log[..|log| - 1], log[|log| - 1].key, key)
  {
    hide After, LongerHeld, Sweep, SweptKeys;
    assert calls == (calls + [c])[..|calls|];
    ReachableInv(calls, capacity);
    RunRanked(calls, capacity);
    var all, h := calls + [c], After(calls, capacity);
    assert calls != [] ==> all[|calls| - 1].now <= all[|calls|].now;
    hide StatusGuardLaws.Inv;
    RecordedRanked(h, capacity, c);
    var r := Recorded(Sweep(h.guard, c.now), c.key, c.timestamp.value, c.now);
    var accepted := h.log + [Swept(SweptKeys(h.guard, c))] + [Accepted(c.key, c.timestamp.value, c.now)];
    var log := Step(h, capacity, c).log;
    assert log == accepted + [Evicted(r.order[0])] && log[..|log| - 1] == accepted;
    OnOrder(h, capacity, c, key);
  }

  lemma OnOrder(h: History, capacity: nat, c: Call, key: string)
    requires StatusGuardLaws.Inv(h, capacity) && Evicts(h.guard, capacity, c) && key in Step(h, capacity, c).guard.latest
    ensures var order := Recorded(Sweep(h.guard, c.now), c.key, c.timestamp.value, c.now).order;
            order != [] && exists i :: 0 < i < |order| && order[i] == key
  {
    hide Sweep, Remembered, RecordsBacked, HeldCovered, LatestHeld, Monotone;
    SweepKeepsInv(h.guard, capacity, c.now);
    RecordKeepsOrder(Sweep(h.guard, c.now), capacity, c.key, c.timestamp.value, c.now);
    var r := Recorded(Sweep(h.guard, c.now), c.key, c.timestamp.value, c.now);
    assert key in Items(r.order) && key != r.order[0];
  }
}
