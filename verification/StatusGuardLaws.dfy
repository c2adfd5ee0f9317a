/** What the status guard guarantees over whole runs of statuses, sweeps and evictions. */
module StatusGuardLaws {
  import opened Common
  import opened StatusGuards

  datatype Call = Call(key: string, timestamp: Option<int>, now: nat)

  datatype Event = Accepted(key: string, timestamp: int, at: nat) | Evicted(key: string) | Swept(keys: set<string>)

  /** A run so far: the guard, everything it accepted, swept and evicted, and the last clock reading. */
  datatype History = History(guard: Guard, log: seq<Event>, clock: nat)

  function Start(): History {
    History(Guard(map[], [], 0), [], 0)
  }

  predicate Evicts(g: Guard, capacity: nat, c: Call) {
    c.timestamp.Some? && Accepts(g, c.key, c.timestamp, c.now) &&
    var r := Recorded(Sweep(g, c.now), c.key, c.timestamp.value, c.now);
    |r.latest| > capacity && r.order != []
  }

  function SweptKeys(g: Guard, c: Call): set<string> {
    if c.timestamp.None? then {} else g.latest.Keys - Sweep(g, c.now).latest.Keys
  }

  function Events(g: Guard, capacity: nat, c: Call): seq<Event> {
    [Swept(SweptKeys(g, c))]
    + (if c.timestamp.Some? && Accepts(g, c.key, c.timestamp, c.now) then [Accepted(c.key, c.timestamp.value, c.now)] else [])
    + (if Evicts(g, capacity, c)
       then [Evicted(Recorded(Sweep(g, c.now), c.key, c.timestamp.value, c.now).order[0])] else [])
  }

  function Step(h: History, capacity: nat, c: Call): History {
    History(Next(h.guard, capacity, c.key, c.timestamp, c.now), h.log + Events(h.guard, capacity, c), c.now)
  }

  function After(calls: seq<Call>, capacity: nat): History {
    if calls == [] then Start() else Step(After(calls[..|calls| - 1], capacity), capacity, calls[|calls| - 1])
  }

  predicate InOrder(calls: seq<Call>) {
    forall i, j :: 0 <= i < j < |calls| ==> calls[i].now <= calls[j].now
  }

  /** No eviction of `key` after position `p`. */
  predicate Kept(log: seq<Event>, p: nat, key: string) {
    forall q :: p < q < |log| ==> log[q] != Evicted(key)
  }

  /** `key` has stayed on record since position `p`: neither swept nor evicted. */
  predicate Held(log: seq<Event>, p: nat, key: string) {
    Kept(log, p, key) && forall q :: p < q < |log| && log[q].Swept? ==> key !in log[q].keys
  }

  predicate IsAccept(log: seq<Event>, p: nat, key: string) {
    p < |log| && log[p].Accepted? && log[p].key == key
  }

  /** Every record is an accepted status that was not due at the last sweep. */
  predicate RecordsBacked(h: History) {
    && h.guard.lastSweep <= h.clock
    && forall k :: k in h.guard.latest ==>
         && Accepted(k, h.guard.latest[k].deviceTimestamp, h.guard.latest[k].receivedAt) in h.log
         && h.guard.latest[k].receivedAt <= h.clock
         && (ExpiryOf(h.guard.latest[k].receivedAt) > h.guard.lastSweep || h.guard.latest[k].receivedAt >= h.guard.lastSweep)
  }

  /** The record for `key` is at least as new as the accepted event `e`. */
  predicate Covers(g: Guard, e: Event)
    requires e.Accepted?
  {
    && e.key in g.latest
    && g.latest[e.key].deviceTimestamp >= e.timestamp
    && g.latest[e.key].receivedAt >= e.at
  }

  /** Every accepted status within its lifetime and not evicted is still covered. */
  predicate Remembered(h: History) {
    forall p :: 0 <= p < |h.log| && h.log[p].Accepted? ==>
      && h.log[p].at <= h.clock
      && (Kept(h.log, p, h.log[p].key) && h.clock < ExpiryOf(h.log[p].at) ==> Covers(h.guard, h.log[p]))
  }

  /** While a key stays on record every status accepted for it is covered, however old. */
  predicate HeldCovered(h: History) {
    forall p :: 0 <= p < |h.log| && h.log[p].Accepted? && Held(h.log, p, h.log[p].key) ==> Covers(h.guard, h.log[p])
  }

  /** What is on record was accepted and stayed there. */
  predicate LatestHeld(h: History) {
    forall k :: k in h.guard.latest ==> exists p :: 0 <= p < |h.log| && IsAccept(h.log, p, k) && Held(h.log, p, k)
  }

  /** Accepted timestamps of a held key never go back. */
  predicate Monotone(log: seq<Event>) {
    forall p, q :: 0 <= p < q < |log| && log[p].Accepted? && log[q].Accepted? && log[p].key == log[q].key
                   && Held(log[..q], p, log[p].key)
                   ==> log[p].timestamp <= log[q].timestamp
  }

  predicate Inv(h: History, capacity: nat) {
    && GuardInv(h.guard, capacity) && RecordsBacked(h) && Remembered(h)
    && HeldCovered(h) && LatestHeld(h) && Monotone(h.log)
  }

  lemma NextKeepsGuard(g: Guard, capacity: nat, c: Call)
    requires GuardInv(g, capacity) && capacity > 0
    ensures GuardInv(Next(g, capacity, c.key, c.timestamp, c.now), capacity)
    ensures Evicts(g, capacity, c) ==>
              Recorded(Sweep(g, c.now), c.key, c.timestamp.value, c.now).order[0] != c.key
  {
    hide GuardInv, Sweep;
    if c.timestamp.Some? {
      var swept := Sweep(g, c.now);
      SweepKeepsInv(g, capacity, c.now);
      if !Stale(swept, c.key, c.timestamp.value) {
        RecordKeepsOrder(swept, capacity, c.key, c.timestamp.value, c.now);
        if |Recorded(swept, c.key, c.timestamp.value, c.now).latest| > capacity {
          EvictOnce(swept, capacity, c.key, c.timestamp.value, c.now);
        }
      }
    }
  }

  lemma BackedStep(h: History, capacity: nat, c: Call)
    requires RecordsBacked(h) && c.now >= h.clock
    ensures RecordsBacked(Step(h, capacity, c))
  {
  }

  lemma RememberedStep(h: History, capacity: nat, c: Call)
    requires GuardInv(h.guard, capacity) && capacity > 0 && Remembered(h) && c.now >= h.clock
    ensures Remembered(Step(h, capacity, c))
  {
    hide GuardInv;
    NextKeepsGuard(h.guard, capacity, c);
    var h' := Step(h, capacity, c);
    forall p | 0 <= p < |h'.log| && h'.log[p].Accepted? && Kept(h'.log, p, h'.log[p].key) && h'.clock < ExpiryOf(h'.log[p].at)
      ensures Covers(h'.guard, h'.log[p])
    {
      OneRemembered(h, capacity, c, p);
    }
  }

  lemma OneRemembered(h: History, capacity: nat, c: Call, p: nat)
    requires GuardInv(h.guard, capacity) && capacity > 0 && Remembered(h) && c.now >= h.clock
    requires var h' := Step(h, capacity, c);
             p < |h'.log| && h'.log[p].Accepted? && Kept(h'.log, p, h'.log[p].key) && h'.clock < ExpiryOf(h'.log[p].at)
    ensures Covers(Step(h, capacity, c).guard, Step(h, capacity, c).log[p])
  {
    hide GuardInv;
    NextKeepsGuard(h.guard, capacity, c);
    var h' := Step(h, capacity, c);
    var e := h'.log[p];
    if p < |h.log| {
      assert forall q :: p < q < |h.log| ==> h.log[q] == h'.log[q];
      assert Kept(h.log, p, e.key);
      assert Covers(h.guard, e);
      assert Covers(Sweep(h.guard, c.now), e);
      hide Remembered;
      if Evicts(h.guard, capacity, c) {
        assert h'.log[|h'.log| - 1] != Evicted(e.key);
      }
    }
  }

  lemma HeldBefore(log: seq<Event>, more: seq<Event>, p: nat, key: string)
    requires p < |log| && Held(log + more, p, key)
    ensures Held(log, p, key)
    ensures forall e :: e in more ==> e != Evicted(key) && (e.Swept? ==> key !in e.keys)
  {
    assert forall q :: 0 <= q < |log| ==> log[q] == (log + more)[q];
    assert forall q :: 0 <= q < |more| ==> more[q] == (log + more)[|log| + q];
  }

  lemma HeldAfter(log: seq<Event>, more: seq<Event>, p: nat, key: string)
    requires p < |log| && Held(log, p, key)
    requires forall e :: e in more ==> e != Evicted(key) && (e.Swept? ==> key !in e.keys)
    ensures Held(log + more, p, key)
  {
    assert forall q :: |log| <= q < |log + more| ==> (log + more)[q] in more;
  }

  /** A record that is neither swept nor evicted in this step is still covered after it. */
  lemma CoverStays(h: History, capacity: nat, c: Call, e: Event)
    requires e.Accepted? && e.at <= h.clock <= c.now && Covers(h.guard, e)
    requires forall x :: x in Events(h.guard, capacity, c) ==> x != Evicted(e.key) && (x.Swept? ==> e.key !in x.keys)
    ensures Covers(Step(h, capacity, c).guard, e)
  {
    assert Swept(SweptKeys(h.guard, c)) in Events(h.guard, capacity, c);
    if Evicts(h.guard, capacity, c) {
      assert Evicted(Recorded(Sweep(h.guard, c.now), c.key, c.timestamp.value, c.now).order[0]) in Events(h.guard, capacity, c);
    }
  }

  lemma HeldStep(h: History, capacity: nat, c: Call)
    requires GuardInv(h.guard, capacity) && capacity > 0 && Remembered(h) && HeldCovered(h) && c.now >= h.clock
    ensures HeldCovered(Step(h, capacity, c))
  {
    hide GuardInv;
    NextKeepsGuard(h.guard, capacity, c);
    var h', more := Step(h, capacity, c), Events(h.guard, capacity, c);
    forall p | 0 <= p < |h'.log| && h'.log[p].Accepted? && Held(h'.log, p, h'.log[p].key) ensures Covers(h'.guard, h'.log[p]) {
      var e := h'.log[p];
      if p < |h.log| {
        HeldBefore(h.log, more, p, e.key);
        hide Held, Covers, Events, Step;
        CoverStays(h, capacity, c, e);
      } else {
        NewIsCovered(h, capacity, c, p);
      }
    }
  }

  lemma NewIsCovered(h: History, capacity: nat, c: Call, p: nat)
    requires GuardInv(h.guard, capacity) && capacity > 0
    requires |h.log| <= p < |Step(h, capacity, c).log| && Step(h, capacity, c).log[p].Accepted?
    ensures Covers(Step(h, capacity, c).guard, Step(h, capacity, c).log[p])
  {
    hide GuardInv;
    NextKeepsGuard(h.guard, capacity, c);
  }

  lemma LatestStep(h: History, capacity: nat, c: Call)
    requires LatestHeld(h)
    ensures LatestHeld(Step(h, capacity, c))
  {
    var h', more := Step(h, capacity, c), Events(h.guard, capacity, c);
    forall k | k in h'.guard.latest ensures exists p :: 0 <= p < |h'.log| && IsAccept(h'.log, p, k) && Held(h'.log, p, k) {
      LatestOne(h, capacity, c, k);
    }
  }

  lemma LatestOne(h: History, capacity: nat, c: Call, k: string)
    requires LatestHeld(h) && k in Step(h, capacity, c).guard.latest
    ensures var h' := Step(h, capacity, c); exists p :: 0 <= p < |h'.log| && IsAccept(h'.log, p, k) && Held(h'.log, p, k)
  {
    var h' := Step(h, capacity, c);
    Untouched(h, capacity, c, k);
    if c.timestamp.Some? && Accepts(h.guard, c.key, c.timestamp, c.now) && k == c.key {
      hide LatestHeld, Next;
      assert IsAccept(h'.log, |h.log| + 1, k) && Held(h'.log, |h.log| + 1, k);
    } else {
      var p :| 0 <= p < |h.log| && IsAccept(h.log, p, k) && Held(h.log, p, k);
      hide LatestHeld, Held, Events, Next;
      HeldAfter(h.log, Events(h.guard, capacity, c), p, k);
      assert IsAccept(h'.log, p, k);
    }
  }

  /** A key on record after a step was not evicted in it, and unless it was just accepted it was on record
      before and not swept either. */
  lemma Untouched(h: History, capacity: nat, c: Call, k: string)
    requires k in Step(h, capacity, c).guard.latest
    ensures forall e :: e in Events(h.guard, capacity, c) ==> e != Evicted(k)
    ensures (c.timestamp.Some? && Accepts(h.guard, c.key, c.timestamp, c.now) && k == c.key)
            || (k in h.guard.latest && forall e :: e in Events(h.guard, capacity, c) && e.Swept? ==> k !in e.keys)
  {
  }

  lemma MonotoneStep(h: History, capacity: nat, c: Call)
    requires HeldCovered(h) && Monotone(h.log)
    ensures Monotone(Step(h, capacity, c).log)
  {
    var log, more := Step(h, capacity, c).log, Events(h.guard, capacity, c);
    forall p, q | 0 <= p < q < |log| && log[p].Accepted? && log[q].Accepted? && log[p].key == log[q].key && Held(log[..q], p, log[p].key)
      ensures log[p].timestamp <= log[q].timestamp
    {
      if q < |h.log| {
        assert log[..q] == h.log[..q];
      } else {
        assert q == |h.log| + 1 && log[..q] == h.log + [Swept(SweptKeys(h.guard, c))];
        HeldBefore(h.log, [Swept(SweptKeys(h.guard, c))], p, log[p].key);
        assert Covers(h.guard, h.log[p]);
        assert Covers(Sweep(h.guard, c.now), h.log[p]);
      }
    }
  }

  lemma StepKeepsInv(h: History, capacity: nat, c: Call)
    requires Inv(h, capacity) && capacity > 0 && c.now >= h.clock
    ensures Inv(Step(h, capacity, c), capacity) && Step(h, capacity, c).clock == c.now
  {
    hide GuardInv, Remembered, RecordsBacked, HeldCovered, LatestHeld, Monotone, Events;
    NextKeepsGuard(h.guard, capacity, c);
    BackedStep(h, capacity, c);
    RememberedStep(h, capacity, c);
    HeldStep(h, capacity, c);
    LatestStep(h, capacity, c);
    MonotoneStep(h, capacity, c);
  }

  lemma {:induction false} ReachableInv(calls: seq<Call>, capacity: nat)
    requires InOrder(calls) && capacity > 0
    ensures Inv(After(calls, capacity), capacity)
    ensures After(calls, capacity).clock == if calls == [] then 0 else calls[|calls| - 1].now
  {
    if calls != [] {
      var before, c := calls[..|calls| - 1], calls[|calls| - 1];
      ReachableInv(before, capacity);
      var h := After(before, capacity);
      hide GuardInv, Remembered, RecordsBacked, HeldCovered, LatestHeld, Monotone, Step;
      StepKeepsInv(h, capacity, c);
    }
  }

  /** In every run the order lists each guarded observer once within capacity, the status just accepted
      is on record, the observers on record are exactly those with an accepted status neither swept nor
      evicted since, and as long as that lasts, past the 48 hours too, timestamps never go back. */
  lemma RunsStayOrdered(calls: seq<Call>, capacity: nat, c: Call)
    requires InOrder(calls + [c]) && capacity > 0
    ensures var h := After(calls, capacity);
            var g := Next(h.guard, capacity, c.key, c.timestamp, c.now);
            && Distinct(g.order) && Items(g.order) == g.latest.Keys && |g.latest| <= capacity
            && (c.timestamp.Some? && Accepts(h.guard, c.key, c.timestamp, c.now) ==>
                c.key in g.latest && g.latest[c.key] == Record(c.timestamp.value, c.now))
    ensures Monotone(After(calls, capacity).log)
    ensures forall k :: k in After(calls, capacity).guard.latest <==>
              exists p :: 0 <= p < |After(calls, capacity).log| && IsAccept(After(calls, capacity).log, p, k) && Held(After(calls, capacity).log, p, k)
  {
    hide After, Remembered, RecordsBacked, Monotone;
    assert calls == (calls + [c])[..|calls|];
    ReachableInv(calls, capacity);
    NextKeepsGuard(After(calls, capacity).guard, capacity, c);
  }

  /** Every rejection is justified by an accepted status of the same observer with a strictly greater
      timestamp, received less than 48 hours and one sweep interval earlier. */
  lemma RejectionIsJustified(calls: seq<Call>, capacity: nat, c: Call)
    requires InOrder(calls + [c]) && capacity > 0
    requires !Accepts(After(calls, capacity).guard, c.key, c.timestamp, c.now)
    ensures exists e :: e in After(calls, capacity).log && e.Accepted? && e.key == c.key
              && e.timestamp > c.timestamp.value
              && c.now < e.at + 172_800_000 + 60_000
  {
    hide After, GuardInv, Remembered, HeldCovered, LatestHeld, Monotone;
    assert calls == (calls + [c])[..|calls|];
    ReachableInv(calls, capacity);
    var g := After(calls, capacity).guard;
    var r := g.latest[c.key];
    assert Accepted(c.key, r.deviceTimestamp, r.receivedAt) in After(calls, capacity).log;
  }

  /** Conversely an older status is rejected while a newer accepted one of the same observer is less
      than 48 hours old and the observer has not been evicted since. */
  lemma OlderStatusIsRejected(calls: seq<Call>, capacity: nat, c: Call, p: nat)
    requires InOrder(calls + [c]) && capacity > 0 && c.timestamp.Some?
    requires IsAccept(After(calls, capacity).log, p, c.key)
    requires After(calls, capacity).log[p].timestamp > c.timestamp.value
    requires Kept(After(calls, capacity).log, p, c.key)
    requires c.now < Min(After(calls, capacity).log[p].at + 172_800_000, 0xFFFF_FFFF_FFFF_FFFF)
    ensures !Accepts(After(calls, capacity).guard, c.key, c.timestamp, c.now)
  {
    hide After, GuardInv, RecordsBacked, HeldCovered, LatestHeld, Monotone;
    assert calls == (calls + [c])[..|calls|];
    ReachableInv(calls, capacity);
    var h := After(calls, capacity);
    var all := calls + [c];
    assert calls != [] ==> all[|calls| - 1].now <= all[|calls|].now;
    CoveredUntilExpiry(h, p, c.key, c.now);
  }

  lemma CoveredUntilExpiry(h: History, p: nat, key: string, now: nat)
    requires Remembered(h) && IsAccept(h.log, p, key) && Kept(h.log, p, key)
    requires h.clock <= now < ExpiryOf(h.log[p].at)
    ensures Covers(Sweep(h.guard, now), h.log[p])
  {
    assert Covers(h.guard, h.log[p]);
  }
}
