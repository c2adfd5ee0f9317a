/**
 The retained-message store (src/mqtt/broker/retained.rs): entries by topic, an
 ordered index of deadlines, and reads that purge first.
 */
module Retained {
  import opened Common

  // ---- Topic order: a BTreeMap iterates its keys in this order ----

  predicate Precedes(a: string, b: string) {
    b != "" && (a == "" || a[0] < b[0] || (a[0] == b[0] && Precedes(a[1..], b[1..])))
  }

  lemma {:induction false} PrecedesIsStrict(a: string)
    ensures !Precedes(a, a)
  {
    if a != "" { PrecedesIsStrict(a[1..]); }
  }

  lemma {:induction false} PrecedesIsTotal(a: string, b: string)
    ensures Precedes(a, b) || a == b || Precedes(b, a)
  {
    if a != "" && b != "" && a[0] == b[0] {
      PrecedesIsTotal(a[1..], b[1..]);
      if a[1..] == b[1..] { assert a == [a[0]] + a[1..]; }
    }
  }

  lemma {:induction false} PrecedesIsTransitive(a: string, b: string, c: string)
    requires Precedes(a, b) && Precedes(b, c)
    ensures Precedes(a, c)
  {
    if a != "" && a[0] == b[0] && b[0] == c[0] {
      PrecedesIsTransitive(a[1..], b[1..], c[1..]);
    }
  }

  predicate IsLeast(t: string, s: set<string>) {
    t in s && forall u :: u in s ==> u == t || Precedes(t, u)
  }

  lemma {:induction false} LeastExists(s: set<string>)
    requires s != {}
    ensures exists t :: IsLeast(t, s)
  {
    var x :| x in s;
    if s == {x} {
      assert IsLeast(x, s);
    } else {
      var rest := s - {x};
      LeastExists(rest);
      var y :| IsLeast(y, rest);
      PrecedesIsTotal(x, y);
      if Precedes(x, y) {
        forall u | u in s ensures u == x || Precedes(x, u) {
          if u != x && u != y { PrecedesIsTransitive(x, y, u); }
        }
        assert IsLeast(x, s);
      } else {
        assert IsLeast(y, s);
      }
    }
  }

  /** `ks` lists exactly the topics of `s`, each once, in order. */
  ghost predicate IsListing(ks: seq<string>, s: set<string>) {
    && (forall t :: t in s <==> t in ks)
    && (forall i, j :: 0 <= i < j < |ks| ==> Precedes(ks[i], ks[j]))
  }

  lemma {:induction false} ListingIsUnique(a: seq<string>, b: seq<string>, s: set<string>)
    requires IsListing(a, s) && IsListing(b, s)
    ensures a == b
  {
    EmptyListing(a, s);
    EmptyListing(b, s);
    if a != [] {
      FirstIsLeast(a, s);
      FirstIsLeast(b, s);
      TailLists(a, s);
      TailLists(b, s);
      if a[0] != b[0] {
        PrecedesIsTransitive(a[0], b[0], a[0]);
        PrecedesIsStrict(a[0]);
      }
      ListingIsUnique(a[1..], b[1..], s - {a[0]});
    }
  }

  lemma EmptyListing(ks: seq<string>, s: set<string>)
    requires IsListing(ks, s)
    ensures ks == [] <==> s == {}
  {
    if ks != [] { assert ks[0] in s; }
  }

  lemma FirstIsLeast(ks: seq<string>, s: set<string>)
    requires IsListing(ks, s) && ks != []
    ensures IsLeast(ks[0], s)
  {
  }

  lemma TailLists(ks: seq<string>, s: set<string>)
    requires IsListing(ks, s) && ks != []
    ensures IsListing(ks[1..], s - {ks[0]})
  {
    forall t ensures t in s - {ks[0]} <==> t in ks[1..] {
      if t in ks[1..] {
        var i :| 0 <= i < |ks[1..]| && ks[1..][i] == t;
        assert Precedes(ks[0], ks[i + 1]);
        PrecedesIsStrict(ks[0]);
      }
    }
  }

  // ---- Entries and expiry ----

  datatype Source = Custom | LastWill | Broker

  datatype Retain = Retain(source: Source, payload: seq<byte>)

  datatype Entry = Entry(retain: Retain, expiresAt: Option<nat>)

  type Entries = map<string, Entry>

  predicate Alive(e: Entry, now: nat) {
    e.expiresAt.None? || e.expiresAt.value > now
  }

  /** What is still visible at `now`. */
  function Live(m: Entries, now: nat): Entries {
    map t | t in m && Alive(m[t], now) :: m[t]
  }

  /** The index holds exactly the deadlines of the entries. */
  ghost predicate IndexExact(m: Entries, expirations: set<(nat, string)>) {
    forall d, t :: (d, t) in expirations <==> t in m && m[t].expiresAt == Some(d)
  }

  predicate IsFirst(p: (nat, string), s: set<(nat, string)>) {
    p in s && forall q :: q in s ==> q == p || p.0 < q.0 || (p.0 == q.0 && Precedes(p.1, q.1))
  }

  lemma {:induction false} FirstExists(s: set<(nat, string)>)
    requires s != {}
    ensures exists p :: IsFirst(p, s)
  {
    var x :| x in s;
    if s == {x} {
      assert IsFirst(x, s);
    } else {
      var rest := s - {x};
      FirstExists(rest);
      var y :| IsFirst(y, rest);
      PrecedesIsTotal(x.1, y.1);
      if x.0 < y.0 || (x.0 == y.0 && Precedes(x.1, y.1)) {
        forall q: (nat, string) | q in s ensures q == x || x.0 < q.0 || (x.0 == q.0 && Precedes(x.1, q.1)) {
          if q != x && q != y && x.0 == q.0 { PrecedesIsTransitive(x.1, y.1, q.1); }
        }
        assert IsFirst(x, s);
      } else {
        assert IsFirst(y, s);
      }
    }
  }

  // ---- The store that never purges, and the history both are run on ----

  /** One call; `purgeAt` and `stampAt` are its two clock readings. */
  datatype Call =
    | Set(topic: string, retain: Retain, interval: Option<nat>, purgeAt: nat, stampAt: nat)
    | Read(now: nat)

  predicate IsClient(r: Retain) {
    r.source.Custom? || r.source.LastWill?
  }

  /** Writing one value, MQTT 5.0 sections 3.3.1.3 and 3.3.2.3.3: empty payload clears. */
  function Write(m: Entries, topic: string, retain: Retain, interval: Option<nat>, stampAt: nat): Entries {
    if retain.payload == [] then m - {topic}
    else m[topic := Entry(retain, if interval.Some? then Some(stampAt + interval.value) else None)]
  }

  datatype Store = Store(entries: Entries, peak: nat)

  /** What each call does to the store. */
  function Apply(s: Store, c: Call): Store {
    match c
    case Read(now) => s.(entries := Live(s.entries, now))
    case Set(topic, retain, interval, purgeAt, stampAt) =>
      if !IsClient(retain) then s
      else
        var after := Write(Live(s.entries, purgeAt), topic, retain, interval, stampAt);
        Store(after, if retain.payload == [] then s.peak else Max(s.peak, |after|))
  }

  /** The same calls on a plain map: nothing is ever purged, reads filter. */
  function ApplyNaive(s: Store, c: Call): Store {
    match c
    case Read(_) => s
    case Set(topic, retain, interval, purgeAt, stampAt) =>
      if !IsClient(retain) then s
      else
        Store(Write(s.entries, topic, retain, interval, stampAt),
              if retain.payload == [] then s.peak
              else Max(s.peak, |Live(s.entries, purgeAt).Keys + {topic}|))
  }

  function LastTime(c: Call): nat {
    match c case Set(_, _, _, _, stampAt) => stampAt case Read(now) => now
  }

  function FirstTime(c: Call): nat {
    match c case Set(_, _, _, purgeAt, _) => purgeAt case Read(now) => now
  }

  /** Clock readings never go back. */
  predicate InOrder(calls: seq<Call>, clock: nat) {
    calls == [] || (clock <= FirstTime(calls[0]) <= LastTime(calls[0]) && InOrder(calls[1..], LastTime(calls[0])))
  }

  function ApplyAll(s: Store, calls: seq<Call>): Store
    decreases |calls|
  {
    if calls == [] then s else ApplyAll(Apply(s, calls[0]), calls[1..])
  }

  function ApplyAllNaive(s: Store, calls: seq<Call>): Store
    decreases |calls|
  {
    if calls == [] then s else ApplyAllNaive(ApplyNaive(s, calls[0]), calls[1..])
  }

  function EndTime(calls: seq<Call>, clock: nat): nat {
    if calls == [] then clock else EndTime(calls[1..], LastTime(calls[0]))
  }

  lemma LiveLater(m: Entries, now: nat, later: nat)
    requires now <= later
    ensures Live(Live(m, now), later) == Live(m, later)
  {
  }

  lemma WriteIsLocal(m: Entries, n: Entries, now: nat, topic: string, retain: Retain, interval: Option<nat>, stampAt: nat)
    requires Live(m, now) == Live(n, now) && now <= stampAt
    ensures Live(Write(m, topic, retain, interval, stampAt), stampAt) == Live(Write(n, topic, retain, interval, stampAt), stampAt)
  {
    LiveLater(m, now, stampAt);
    LiveLater(n, now, stampAt);
    assert Live(m, stampAt) == Live(n, stampAt);
    var a, b := Write(m, topic, retain, interval, stampAt), Write(n, topic, retain, interval, stampAt);
    forall t ensures t in Live(a, stampAt) <==> t in Live(b, stampAt) {
      assert t in Live(m, stampAt) <==> t in Live(n, stampAt);
    }
    forall t | t in Live(a, stampAt) ensures a[t] == b[t] {
      if t != topic { assert t in Live(m, stampAt) && Live(m, stampAt)[t] == Live(n, stampAt)[t]; }
    }
  }

  /** After every history the purging store shows what the naive one shows, and has the same
      high-water mark. */
  lemma {:induction false} RefinesNaive(s: Store, n: Store, calls: seq<Call>, clock: nat, now: nat)
    requires InOrder(calls, clock) && EndTime(calls, clock) <= now
    requires Live(s.entries, clock) == Live(n.entries, clock) && s.peak == n.peak
    ensures Live(ApplyAll(s, calls).entries, now) == Live(ApplyAllNaive(n, calls).entries, now)
    ensures ApplyAll(s, calls).peak == ApplyAllNaive(n, calls).peak
    decreases |calls|
  {
    if calls == [] {
      LiveLater(s.entries, clock, now);
      LiveLater(n.entries, clock, now);
    } else {
      StepRefines(s, n, calls[0], clock);
      RefinesNaive(Apply(s, calls[0]), ApplyNaive(n, calls[0]), calls[1..], LastTime(calls[0]), now);
    }
  }

  lemma StepRefines(s: Store, n: Store, c: Call, clock: nat)
    requires clock <= FirstTime(c) <= LastTime(c)
    requires Live(s.entries, clock) == Live(n.entries, clock) && s.peak == n.peak
    ensures Live(Apply(s, c).entries, LastTime(c)) == Live(ApplyNaive(n, c).entries, LastTime(c))
    ensures Apply(s, c).peak == ApplyNaive(n, c).peak
  {
    var t := FirstTime(c);
    LiveLater(s.entries, clock, t);
    LiveLater(n.entries, clock, t);
    assert Live(s.entries, t) == Live(n.entries, t);
    LiveLater(s.entries, t, LastTime(c));
    LiveLater(n.entries, t, LastTime(c));
    if c.Set? {
      LiveLater(s.entries, t, t);
      WriteIsLocal(Live(s.entries, t), n.entries, t, c.topic, c.retain, c.interval, c.stampAt);
      if c.retain.payload != [] {
        assert Apply(s, c).entries.Keys == Live(n.entries, t).Keys + {c.topic} || !IsClient(c.retain);
      }
    }
  }

  // ---- Pages ----

  /** One page of the sorted topics and its `has_more`; `limit + 1` saturates. */
  function PageOf(ks: seq<string>, offset: nat, limit: nat): (seq<string>, bool) {
    var skipped := ks[Min(offset, |ks|)..];
    var taken := skipped[..Min(|skipped|, Min(limit + 1, USIZE_MAX))];
    (taken[..Min(limit, |taken|)], |taken| > limit)
  }

  /** Paging on from `offset` for as long as `has_more` says so. */
  function PagesFrom(ks: seq<string>, offset: nat, limit: nat): seq<seq<string>>
    requires 0 < limit
    decreases |ks| - offset
  {
    var (page, more) := PageOf(ks, offset, limit);
    if more then [page] + PagesFrom(ks, offset + limit, limit) else [page]
  }

  function Flatten(pages: seq<seq<string>>): seq<string> {
    if pages == [] then [] else pages[0] + Flatten(pages[1..])
  }

  /** At a fixed time, following `has_more` with any positive limit yields every remaining topic once,
      in order; every page but the last is full. */
  lemma {:induction false} PagesCoverTheListing(ks: seq<string>, offset: nat, limit: nat)
    requires 0 < limit && offset <= |ks| <= USIZE_MAX
    ensures Flatten(PagesFrom(ks, offset, limit)) == ks[offset..]
    ensures PageOf(ks, offset, limit).1 <==> offset + limit < |ks|
    ensures forall i :: 0 <= i < |PagesFrom(ks, offset, limit)| - 1 ==> |PagesFrom(ks, offset, limit)[i]| == limit
    decreases |ks| - offset
  {
    var (page, more) := PageOf(ks, offset, limit);
    assert ks[offset..][..Min(|ks| - offset, limit)] == page;
    if more {
      PagesCoverTheListing(ks, offset + limit, limit);
      assert ks[offset..] == page + ks[offset + limit..];
    } else {
      assert page == ks[offset..];
    }
  }

  // ---- The store as its code runs it ----

  class MemoryRetainStorage {
    var entries: Entries
    var expirations: set<(nat, string)>
    var maximumEntries: nat

    ghost predicate Valid()
      reads this
    {
      IndexExact(entries, expirations)
    }

    ghost function State(): Store
      reads this
    {
      Store(entries, maximumEntries)
    }

    constructor ()
      ensures Valid() && State() == Store(map[], 0)
    {
      entries, expirations, maximumEntries := map[], {}, 0;
    }

    method PurgeExpired(now: nat)
      requires Valid()
      modifies this
      ensures Valid() && entries == Live(old(entries), now) && maximumEntries == old(maximumEntries)
    {
      while expirations != {}
        invariant Valid() && maximumEntries == old(maximumEntries)
        invariant entries.Keys <= old(entries).Keys && forall t :: t in entries ==> entries[t] == old(entries)[t]
        invariant forall t :: t in old(entries) && Alive(old(entries)[t], now) ==> t in entries
        decreases |expirations|
      {
        FirstExists(expirations);
        var first :| first in expirations && IsFirst(first, expirations);
        if first.0 > now {
          NothingExpired(entries, expirations, first, now);
          break;
        }
        // The check is never false: the index holds exactly the deadlines of the entries.
        assert first.1 in entries && entries[first.1].expiresAt == Some(first.0);
        expirations := expirations - {first};
        if first.1 in entries && entries[first.1].expiresAt == Some(first.0) {
          entries := entries - {first.1};
        }
      }
    }

    /** `set`: broker-owned messages change nothing, an empty payload clears, a value replaces. */
    method Set(topic: string, retain: Retain, interval: Option<nat>, purgeAt: nat, stampAt: nat)
      requires Valid()
      modifies this
      ensures Valid() && State() == Apply(old(State()), Call.Set(topic, retain, interval, purgeAt, stampAt))
      ensures (retain.source == Custom || retain.source == LastWill) && retain.payload != [] ==>
                && topic in entries && entries[topic].retain == retain
                && entries[topic].expiresAt == if interval.Some? then Some(stampAt + interval.value) else None
      ensures (retain.source == Custom || retain.source == LastWill) && retain.payload == [] ==> topic !in entries
      ensures retain.source == Broker ==> entries == old(entries)
    {
      if !retain.source.Custom? && !retain.source.LastWill? {
        return;
      }
      hide IndexExact, Live;
      PurgeExpired(purgeAt);
      ForgetDeadline(topic);
      if retain.payload == [] {
        entries := entries - {topic};
      } else {
        Replace(topic, retain, interval, stampAt);
      }
    }

    /** The old deadline of a topic about to be cleared or replaced leaves the index. */
    method ForgetDeadline(topic: string)
      requires Valid()
      modifies this`expirations
      ensures IndexExact(entries - {topic}, expirations)
    {
      hide IndexExact;
      ClearedIndex(entries, expirations, topic);
      if topic in entries && entries[topic].expiresAt.Some? {
        expirations := expirations - {(entries[topic].expiresAt.value, topic)};
      }
    }

    method Replace(topic: string, retain: Retain, interval: Option<nat>, stampAt: nat)
      requires IndexExact(entries - {topic}, expirations) && retain.payload != []
      modifies this
      ensures Valid() && entries == Write(old(entries), topic, retain, interval, stampAt)
      ensures maximumEntries == Max(old(maximumEntries), |entries|)
    {
      hide IndexExact;
      var expiresAt := if interval.Some? then Some(stampAt + interval.value) else None;
      ReplacedIndex(entries, expirations, topic, Entry(retain, expiresAt));
      if expiresAt.Some? {
        expirations := expirations + {(expiresAt.value, topic)};
      }
      entries := entries[topic := Entry(retain, expiresAt)];
      maximumEntries := Max(maximumEntries, |entries|);
    }

    /** The topics in iteration order. */
    method SortedTopics() returns (ks: seq<string>)
      ensures IsListing(ks, entries.Keys)
    {
      var rest := entries.Keys;
      ks := [];
      while rest != {}
        invariant rest <= entries.Keys && forall t :: t in entries.Keys <==> t in rest || t in ks
        invariant forall i, t :: 0 <= i < |ks| && t in rest ==> Precedes(ks[i], t)
        invariant forall i, j :: 0 <= i < j < |ks| ==> Precedes(ks[i], ks[j])
        decreases |rest|
      {
        LeastExists(rest);
        var least :| least in rest && IsLeast(least, rest);
        ks := ks + [least];
        rest := rest - {least};
      }
    }

    /** `get`: the live values whose topic matches, in topic order. */
    method Get(matches: string -> bool, now: nat) returns (found: seq<(string, Retain)>)
      requires Valid()
      modifies this
      ensures Valid() && State() == Apply(old(State()), Read(now))
      ensures IsListing(seq(|found|, i requires 0 <= i < |found| => found[i].0),
                        set t | t in Live(old(entries), now) && matches(t))
      ensures forall i :: 0 <= i < |found| ==> found[i].0 in old(entries) && found[i].1 == old(entries)[found[i].0].retain
    {
      PurgeExpired(now);
      var ks := SortedTopics();
      var hits := Matching(ks, matches);
      found := [];
      for i := 0 to |hits|
        invariant |found| == i && forall j :: 0 <= j < i ==> hits[j] in entries && found[j] == (hits[j], entries[hits[j]].retain)
      {
        assert hits[i] in hits;
        assert hits[i] in ks;
        found := found + [(hits[i], entries[hits[i]].retain)];
      }
      assert seq(|found|, i requires 0 <= i < |found| => found[i].0) == hits;
      assert (set t | t in ks && matches(t)) == set t | t in Live(old(entries), now) && matches(t);
    }

    method Count(now: nat) returns (count: nat)
      requires Valid()
      modifies this
      ensures Valid() && State() == Apply(old(State()), Read(now))
      ensures count == |Live(old(entries), now)|
    {
      PurgeExpired(now);
      count := |entries|;
    }

    /** `get_all_paginated`: a page of the live topics with their remaining lifetimes. */
    method GetAllPaginated(offset: nat, limit: nat, now: nat) returns (page: seq<(string, Retain, Option<nat>)>, hasMore: bool)
      requires Valid()
      modifies this
      ensures Valid() && State() == Apply(old(State()), Read(now))
      ensures exists ks :: IsListing(ks, Live(old(entries), now).Keys)
                && (seq(|page|, i requires 0 <= i < |page| => page[i].0), hasMore) == PageOf(ks, offset, limit)
      ensures forall i :: 0 <= i < |page| ==>
                && page[i].0 in old(entries) && page[i].1 == old(entries)[page[i].0].retain
                && match old(entries)[page[i].0].expiresAt
                   case None => page[i].2 == None
                   case Some(deadline) => deadline > now && page[i].2 == Some(deadline - now)
    {
      PurgeExpired(now);
      var ks := SortedTopics();
      var skipped := ks[Min(offset, |ks|)..];
      var taken := skipped[..Min(|skipped|, Min(limit + 1, USIZE_MAX))];
      hasMore := |taken| > limit;
      var kept := taken[..Min(limit, |taken|)];
      page := [];
      for i := 0 to |kept|
        invariant |page| == i && forall j :: 0 <= j < i ==> kept[j] in entries && page[j] == Row(kept[j], entries[kept[j]], now)
      {
        assert kept[i] == ks[Min(offset, |ks|) + i];
        page := page + [Row(kept[i], entries[kept[i]], now)];
      }
      assert seq(|page|, i requires 0 <= i < |page| => page[i].0) == kept;
    }
  }

  /** The topics that match, in the same order. */
  method Matching(ks: seq<string>, matches: string -> bool) returns (hits: seq<string>)
    requires IsListing(ks, set t | t in ks)
    ensures IsListing(hits, set t | t in ks && matches(t))
  {
    hits := [];
    for i := 0 to |ks|
      invariant forall t :: t in hits <==> t in ks[..i] && matches(t)
      invariant forall j, k :: 0 <= j < k < |hits| ==> Precedes(hits[j], hits[k])
    {
      assert ks[..i + 1] == ks[..i] + [ks[i]];
      if matches(ks[i]) {
        forall j | 0 <= j < |hits| ensures Precedes(hits[j], ks[i]) {
          assert hits[j] in hits;
          assert hits[j] in ks[..i];
        }
        hits := hits + [ks[i]];
      }
    }
    assert ks[..|ks|] == ks;
  }

  function Row(topic: string, e: Entry, now: nat): (string, Retain, Option<nat>) {
    (topic, e.retain, if e.expiresAt.None? then None else Some(Max(0, e.expiresAt.value - now)))
  }

  /** The index once the deadline of `topic`, if it had one, is taken out. */
  function Unindexed(m: Entries, expirations: set<(nat, string)>, topic: string): set<(nat, string)> {
    if topic in m && m[topic].expiresAt.Some? then expirations - {(m[topic].expiresAt.value, topic)} else expirations
  }

  lemma ClearedIndex(m: Entries, expirations: set<(nat, string)>, topic: string)
    requires IndexExact(m, expirations)
    ensures IndexExact(m - {topic}, Unindexed(m, expirations, topic))
  {
  }

  lemma ReplacedIndex(m: Entries, expirations: set<(nat, string)>, topic: string, e: Entry)
    requires IndexExact(m - {topic}, expirations)
    ensures IndexExact(m[topic := e], if e.expiresAt.Some? then expirations + {(e.expiresAt.value, topic)} else expirations)
  {
    forall d, t ensures (d, t) in expirations ==> t in m - {topic} {
    }
  }

  lemma NothingExpired(m: Entries, expirations: set<(nat, string)>, first: (nat, string), now: nat)
    requires IndexExact(m, expirations) && IsFirst(first, expirations) && first.0 > now
    ensures forall t :: t in m ==> Alive(m[t], now)
  {
    forall t | t in m ensures Alive(m[t], now) {
      if m[t].expiresAt.Some? {
        assert (m[t].expiresAt.value, t) in expirations;
      }
    }
  }
}
