/**
 The stale-status guard (src/mqtt/broker/status_guard.rs): the newest accepted
 device timestamp per observer, swept by receipt time and bounded by evicting
 the oldest inserted observer.
 */
module StatusGuards {
  import opened Common
  import Topics

  const STALE_STATUS_GUARD_TTL_MS: nat := 48 * 60 * 60 * 1_000
  const SWEEP_INTERVAL_MS: nat := 60 * 1_000

  datatype Record = Record(deviceTimestamp: int, receivedAt: nat)

  datatype Guard = Guard(latest: map<string, Record>, order: seq<string>, lastSweep: nat)

  function SaturatingAdd(a: nat, b: nat): nat {
    Min(a + b, U64_MAX)
  }

  function SaturatingSub(a: nat, b: nat): nat {
    Max(a - b, 0)
  }

  /** The first instant at which a record may be swept. */
  function ExpiryOf(receivedAt: nat): nat {
    SaturatingAdd(receivedAt, STALE_STATUS_GUARD_TTL_MS)
  }

  function Sweep(g: Guard, now: nat): Guard {
    if SaturatingSub(now, g.lastSweep) < SWEEP_INTERVAL_MS then g
    else
      var kept := map k | k in g.latest && ExpiryOf(g.latest[k].receivedAt) > now :: g.latest[k];
      Guard(kept, KeepItems(g.order, kept.Keys), now)
  }

  predicate Stale(g: Guard, key: string, timestamp: int) {
    key in g.latest && timestamp < g.latest[key].deviceTimestamp
  }

  function Recorded(g: Guard, key: string, timestamp: int, now: nat): Guard {
    Guard(g.latest[key := Record(timestamp, now)], if key in g.latest then g.order else g.order + [key], g.lastSweep)
  }

  /** Evicting the oldest inserted observer. */
  function Evict(g: Guard): Guard
    requires g.order != []
  {
    Guard(g.latest - {g.order[0]}, g.order[1..], g.lastSweep)
  }

  /** The order lists each guarded observer once, and there are no more than the capacity allows. */
  predicate GuardInv(g: Guard, capacity: nat) {
    && Distinct(g.order)
    && Items(g.order) == g.latest.Keys
    && |g.latest| <= capacity
  }

  lemma SweepKeepsInv(g: Guard, capacity: nat, now: nat)
    requires GuardInv(g, capacity)
    ensures GuardInv(Sweep(g, now), capacity)
  {
    var s := Sweep(g, now);
    if s != g {
      KeepDistinct(g.order, s.latest.Keys);
      Sizes(s.latest, g.latest);
    }
  }

  lemma Sizes(small: map<string, Record>, big: map<string, Record>)
    requires small.Keys <= big.Keys
    ensures |small| <= |big|
  {
    var gap := big.Keys - small.Keys;
    assert big.Keys == small.Keys + gap;
  }

  lemma RecordKeepsOrder(g: Guard, capacity: nat, key: string, timestamp: int, now: nat)
    requires GuardInv(g, capacity)
    ensures var r := Recorded(g, key, timestamp, now);
            && GuardInv(r, capacity + 1)
            && (|r.latest| > capacity ==> key !in g.latest)
            && (|r.latest| <= capacity ==> GuardInv(r, capacity))
  {
    var r := Recorded(g, key, timestamp, now);
    assert r.latest.Keys == g.latest.Keys + {key};
    if key in g.latest {
      assert r.latest.Keys == g.latest.Keys;
    } else {
      NewKeyIsLast(g, capacity, key);
    }
  }

  lemma NewKeyIsLast(g: Guard, capacity: nat, key: string)
    requires GuardInv(g, capacity) && key !in g.latest
    ensures Distinct(g.order + [key]) && Items(g.order + [key]) == g.latest.Keys + {key}
  {
    assert key !in Items(g.order);
  }

  lemma EvictKeepsInv(r: Guard, capacity: nat)
    requires GuardInv(r, capacity + 1) && r.order != []
    ensures GuardInv(Evict(r), capacity)
  {
    var oldest := r.order[0];
    TailSet(r.order);
    assert oldest in Items(r.order);
    assert Evict(r).latest.Keys == r.latest.Keys - {oldest};
  }

  lemma TailSet(s: seq<string>)
    requires s != [] && Distinct(s)
    ensures Distinct(s[1..]) && Items(s[1..]) == Items(s) - {s[0]}
  {
    assert s == [s[0]] + s[1..];
  }

  /** One eviction suffices, there is always something to evict, and it is never the newest key. */
  lemma EvictOnce(g: Guard, capacity: nat, key: string, timestamp: int, now: nat)
    requires GuardInv(g, capacity) && capacity > 0
    requires |Recorded(g, key, timestamp, now).latest| > capacity
    ensures var r := Recorded(g, key, timestamp, now);
            && r.order != [] && r.order[0] != key && r.order[0] in g.latest
            && GuardInv(Evict(r), capacity)
            && key in Evict(r).latest && Evict(r).latest[key] == Record(timestamp, now)
  {
    var r := Recorded(g, key, timestamp, now);
    RecordKeepsOrder(g, capacity, key, timestamp, now);
    OldestIsGuarded(g, capacity, key);
    assert r.latest.Keys == g.latest.Keys + {key};
    EvictKeepsInv(r, capacity);
  }

  lemma OldestIsGuarded(g: Guard, capacity: nat, key: string)
    requires GuardInv(g, capacity) && key !in g.latest && |g.latest.Keys + {key}| > capacity > 0
    ensures g.order != [] && g.order[0] in g.latest && g.order[0] != key
  {
    DistinctCount(g.order);
    assert g.order[0] in Items(g.order);
  }

  /** The state after one status; a missing timestamp skips the guard. */
  function Next(g: Guard, capacity: nat, key: string, timestamp: Option<int>, now: nat): Guard {
    if timestamp.None? then g
    else
      var swept := Sweep(g, now);
      if Stale(swept, key, timestamp.value) then swept
      else
        var r := Recorded(swept, key, timestamp.value, now);
        if |r.latest| > capacity && r.order != [] then Evict(r) else r
  }

  predicate Accepts(g: Guard, key: string, timestamp: Option<int>, now: nat) {
    timestamp.None? || !Stale(Sweep(g, now), key, timestamp.value)
  }

  // ---- The guard as its code runs it ----

  class StatusGuard {
    const capacity: nat
    var latest: map<string, Record>
    var insertionOrder: seq<string>
    var lastSweepAt: nat

    ghost function State(): Guard
      reads this
    {
      Guard(latest, insertionOrder, lastSweepAt)
    }

    ghost predicate Valid()
      reads this
    {
      capacity > 0 && GuardInv(State(), capacity)
    }

    constructor (capacity: nat)
      requires capacity > 0
      ensures Valid() && State() == Guard(map[], [], 0) && this.capacity == capacity
    {
      this.capacity := capacity;
      latest, insertionOrder, lastSweepAt := map[], [], 0;
    }

    method SweepIfDue(now: nat)
      requires Valid()
      modifies this
      ensures Valid() && State() == Sweep(old(State()), now)
    {
      SweepKeepsInv(State(), capacity, now);
      if SaturatingSub(now, lastSweepAt) >= SWEEP_INTERVAL_MS {
        var kept := map k | k in latest && ExpiryOf(latest[k].receivedAt) > now :: latest[k];
        latest := kept;
        insertionOrder := KeepItems(insertionOrder, kept.Keys);
        lastSweepAt := now;
      }
    }

    /** The eviction loop: it runs at most once and never finds the order empty. */
    method EvictToCapacity(ghost g: Guard, ghost key: string, ghost timestamp: int, ghost now: nat)
      requires capacity > 0 && GuardInv(g, capacity) && State() == Recorded(g, key, timestamp, now)
      modifies this
      ensures Valid()
      ensures State() == if |old(latest)| > capacity && old(insertionOrder) != [] then Evict(old(State())) else old(State())
      ensures key in latest && latest[key] == Record(timestamp, now)
    {
      hide GuardInv;
      ghost var r := State();
      RecordKeepsOrder(g, capacity, key, timestamp, now);
      if |latest| > capacity { EvictOnce(g, capacity, key, timestamp, now); }
      while |latest| > capacity
        invariant State() == r || (|r.latest| > capacity && State() == Evict(r))
        decreases |insertionOrder|
      {
        if insertionOrder == [] {
          break;
        }
        var oldest := insertionOrder[0];
        insertionOrder := insertionOrder[1..];
        latest := latest - {oldest};
      }
    }

    /** `accept_status_at`: observers are told apart by their public key in capitals. */
    method AcceptStatusAt(publicKey: string, timestamp: Option<int>, now: nat) returns (ok: bool)
      requires Valid()
      modifies this
      ensures Valid() && ok == Accepts(old(State()), Topics.Upper(publicKey), timestamp, now)
      ensures State() == Next(old(State()), capacity, Topics.Upper(publicKey), timestamp, now)
      ensures ok && timestamp.Some? ==>
                Topics.Upper(publicKey) in latest && latest[Topics.Upper(publicKey)] == Record(timestamp.value, now)
    {
      hide GuardInv, Sweep, Topics.Upper;
      if timestamp.None? {
        return true;
      }
      var key := Topics.Upper(publicKey);
      SweepIfDue(now);
      ghost var swept := State();
      if key in latest && timestamp.value < latest[key].deviceTimestamp {
        return false;
      }
      var newKey := key !in latest;
      latest := latest[key := Record(timestamp.value, now)];
      if newKey {
        insertionOrder := insertionOrder + [key];
      }
      EvictToCapacity(swept, key, timestamp.value, now);
      ok := true;
    }
  }
}
