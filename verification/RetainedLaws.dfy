/** What the retained store shows, said of the calls made to it. */
module RetainedLaws {
  import opened Common
  import opened Retained

  // ---- The topic order ----

  /** Texts are ordered by the first character in which they differ; a beginning comes first. */
  lemma {:induction false} PrecedesExactly(a: string, b: string)
    ensures Precedes(a, b) <==> exists k :: DiffersAt(a, b, k)
    decreases |a|
  {
    if a != "" && b != "" && a[0] == b[0] {
      PrecedesExactly(a[1..], b[1..]);
      if Precedes(a, b) {
        var k :| DiffersAt(a[1..], b[1..], k);
        assert a[..k + 1] == [a[0]] + a[1..][..k] && b[..k + 1] == [b[0]] + b[1..][..k];
        assert DiffersAt(a, b, k + 1);
      }
      if k :| DiffersAt(a, b, k) {
        assert k > 0;
        assert a[1..][..k - 1] == a[..k][1..] && b[1..][..k - 1] == b[..k][1..];
        assert DiffersAt(a[1..], b[1..], k - 1);
      }
    } else if Precedes(a, b) {
      assert DiffersAt(a, b, 0);
    }
  }

  predicate DiffersAt(a: string, b: string, k: int) {
    0 <= k <= |a| && k < |b| && a[..k] == b[..k] && (k == |a| || a[k] < b[k])
  }

  // ---- Histories ----

  /** A client's publish or last will on that topic; messages of the broker itself are not kept. */
  predicate Sets(c: Call, topic: string) {
    c.Set? && c.topic == topic && (c.retain.source == Custom || c.retain.source == LastWill)
  }

  predicate IsLastSet(calls: seq<Call>, topic: string, i: int) {
    0 <= i < |calls| && Sets(calls[i], topic) && forall j :: i < j < |calls| ==> !Sets(calls[j], topic)
  }

  /** Set to a value, without an expiry interval or with one that has not passed yet. */
  predicate Lasts(c: Call, now: nat) {
    c.Set? && c.retain.payload != [] && (c.interval.None? || c.stampAt + c.interval.value > now)
  }

  /** The last set of the topic carried that value, and it has not expired. */
  ghost predicate Shows(calls: seq<Call>, topic: string, value: Retain, now: nat) {
    exists i :: IsLastSet(calls, topic, i) && calls[i].retain == value && Lasts(calls[i], now)
  }

  function Run(calls: seq<Call>): Store {
    ApplyAll(Store(map[], 0), calls)
  }

  lemma {:induction false} ApplyLast(s: Store, calls: seq<Call>, c: Call)
    ensures ApplyAll(s, calls + [c]) == Apply(ApplyAll(s, calls), c)
    decreases |calls|
  {
    hide Apply;
    if calls == [] {
      assert calls + [c] == [c];
    } else {
      assert (calls + [c])[1..] == calls[1..] + [c];
      ApplyLast(Apply(s, calls[0]), calls[1..], c);
    }
  }

  lemma {:induction false} OrderLast(calls: seq<Call>, c: Call, clock: nat)
    requires InOrder(calls + [c], clock)
    ensures InOrder(calls, clock) && EndTime(calls, clock) <= FirstTime(c) <= LastTime(c)
    ensures EndTime(calls + [c], clock) == LastTime(c)
    decreases |calls|
  {
    hide FirstTime, LastTime;
    if calls == [] {
      assert calls + [c] == [c];
    } else {
      assert (calls + [c])[1..] == calls[1..] + [c];
      OrderLast(calls[1..], c, LastTime(calls[0]));
    }
  }

  // ---- What is stored, topic by topic ----

  /** The value of a set, until its expiry interval after its stamp. */
  predicate Stored(e: Entry, c: Call) {
    && c.Set? && c.retain.payload != [] && e.retain == c.retain
    && e.expiresAt == if c.interval.Some? then Some(c.stampAt + c.interval.value) else None
  }

  /** A stored entry is that of its topic's last set; an unexpired last set is stored. */
  ghost predicate Tells(m: Entries, calls: seq<Call>, topic: string, clock: nat) {
    && (topic in m ==> exists i :: IsLastSet(calls, topic, i) && Stored(m[topic], calls[i]))
    && (forall i :: IsLastSet(calls, topic, i) && Lasts(calls[i], clock) ==> topic in m)
  }

  lemma LastSetOnly(calls: seq<Call>, topic: string, i: int, j: int)
    requires IsLastSet(calls, topic, i) && IsLastSet(calls, topic, j)
    ensures i == j
  {
  }

  lemma LastSetAfter(calls: seq<Call>, c: Call, topic: string, i: int)
    ensures IsLastSet(calls + [c], topic, i) <==> if Sets(c, topic) then i == |calls| else IsLastSet(calls, topic, i)
  {
    var longer := calls + [c];
    assert longer[|calls|] == c && forall j :: 0 <= j < |calls| ==> longer[j] == calls[j];
  }

  lemma TellsPurged(m: Entries, calls: seq<Call>, topic: string, clock: nat, now: nat)
    requires Tells(m, calls, topic, clock) && clock <= now
    ensures Tells(Live(m, now), calls, topic, now)
    ensures topic in Live(m, now) ==> exists i :: IsLastSet(calls, topic, i) && Lasts(calls[i], now)
  {
    forall i | IsLastSet(calls, topic, i) && Lasts(calls[i], now) ensures topic in Live(m, now) {
      assert Lasts(calls[i], clock);
      var j :| IsLastSet(calls, topic, j) && Stored(m[topic], calls[j]);
      LastSetOnly(calls, topic, i, j);
    }
  }

  /** A call that does not set the topic leaves what is told of it as it was. */
  lemma TellsOthers(m: Entries, n: Entries, calls: seq<Call>, c: Call, topic: string, clock: nat, later: nat)
    requires Tells(m, calls, topic, clock) && clock <= later && !Sets(c, topic)
    requires topic in m <==> topic in n
    requires topic in m ==> m[topic] == n[topic]
    ensures Tells(n, calls + [c], topic, later)
  {
    hide Sets, Stored;
    forall i ensures IsLastSet(calls + [c], topic, i) <==> IsLastSet(calls, topic, i) {
      LastSetAfter(calls, c, topic, i);
    }
    if topic in n {
      var i :| IsLastSet(calls, topic, i) && Stored(m[topic], calls[i]);
      assert (calls + [c])[i] == calls[i] && IsLastSet(calls + [c], topic, i);
    }
    forall i | IsLastSet(calls + [c], topic, i) && Lasts((calls + [c])[i], later) ensures topic in n {
      assert Lasts(calls[i], clock);
    }
  }

  lemma TellsStep(s: Store, calls: seq<Call>, c: Call, topic: string, clock: nat)
    requires Tells(s.entries, calls, topic, clock) && clock <= FirstTime(c) <= LastTime(c)
    ensures Tells(Apply(s, c).entries, calls + [c], topic, LastTime(c))
  {
    hide Tells, IsLastSet;
    TellsPurged(s.entries, calls, topic, clock, FirstTime(c));
    if Sets(c, topic) {
      TellsSet(s, calls, c, topic);
    } else if c.Set? && !IsClient(c.retain) {
      TellsOthers(s.entries, s.entries, calls, c, topic, clock, LastTime(c));
    } else {
      var live := Live(s.entries, FirstTime(c));
      TellsOthers(live, Apply(s, c).entries, calls, c, topic, FirstTime(c), LastTime(c));
    }
  }

  lemma TellsSet(s: Store, calls: seq<Call>, c: Call, topic: string)
    requires Sets(c, topic)
    ensures Tells(Apply(s, c).entries, calls + [c], topic, LastTime(c))
  {
    forall i ensures IsLastSet(calls + [c], topic, i) <==> i == |calls| {
      LastSetAfter(calls, c, topic, i);
    }
    assert (calls + [c])[|calls|] == c && IsLastSet(calls + [c], topic, |calls|);
  }

  lemma {:induction false} RunTells(calls: seq<Call>, topic: string, clock: nat)
    requires InOrder(calls, clock)
    ensures Tells(Run(calls).entries, calls, topic, EndTime(calls, clock))
    decreases |calls|
  {
    hide Tells, Apply, InOrder, EndTime, ApplyAll;
    if calls == [] {
      NothingTold(topic, clock);
    } else {
      var before, c := calls[..|calls| - 1], calls[|calls| - 1];
      assert calls == before + [c];
      OrderLast(before, c, clock);
      RunTells(before, topic, clock);
      ApplyLast(Store(map[], 0), before, c);
      TellsStep(Run(before), before, c, topic, EndTime(before, clock));
    }
  }

  lemma NothingTold(topic: string, clock: nat)
    ensures Tells(Run([]).entries, [], topic, EndTime([], clock))
  {
  }

  /** After any calls in order, a read at `now` leaves a topic with a value if and only if the last client set of the
      topic carried that value, which was not empty, and its expiry interval, if it had one, has not passed; its
      deadline is that set's. */
  lemma VisibleExactly(calls: seq<Call>, clock: nat, now: nat, topic: string, value: Retain)
    requires InOrder(calls + [Read(now)], clock)
    ensures var seen := Run(calls + [Read(now)]).entries;
            && (topic in seen && seen[topic].retain == value <==> Shows(calls, topic, value, now))
            && (topic in seen ==> exists i :: IsLastSet(calls, topic, i) && Stored(seen[topic], calls[i]))
  {
    hide InOrder, EndTime, Tells, ApplyAll;
    OrderLast(calls, Read(now), clock);
    RunTells(calls, topic, clock);
    ApplyLast(Store(map[], 0), calls, Read(now));
    TellsPurged(Run(calls).entries, calls, topic, EndTime(calls, clock), now);
    SeenWhenTold(Live(Run(calls).entries, now), calls, topic, value, now);
  }

  /** What is counted are the topics shown. */
  lemma CountExactly(calls: seq<Call>, clock: nat, now: nat, shown: set<string>)
    requires InOrder(calls + [Read(now)], clock)
    requires forall t :: t in shown <==> exists value :: Shows(calls, t, value, now)
    ensures |Run(calls + [Read(now)]).entries| == |shown|
  {
    hide Shows, Run, InOrder;
    var seen := Run(calls + [Read(now)]).entries;
    forall t ensures t in seen.Keys <==> t in shown {
      if t in seen { VisibleExactly(calls, clock, now, t, seen[t].retain); }
      if t in shown {
        var value :| Shows(calls, t, value, now);
        VisibleExactly(calls, clock, now, t, value);
      }
    }
    assert seen.Keys == shown && |seen| == |seen.Keys|;
  }

  lemma SeenWhenTold(m: Entries, calls: seq<Call>, topic: string, value: Retain, now: nat)
    requires Tells(m, calls, topic, now)
    requires topic in m ==> exists i :: IsLastSet(calls, topic, i) && Lasts(calls[i], now)
    ensures topic in m && m[topic].retain == value <==> Shows(calls, topic, value, now)
  {
    if topic in m {
      var i :| IsLastSet(calls, topic, i) && Stored(m[topic], calls[i]);
      var j :| IsLastSet(calls, topic, j) && Lasts(calls[j], now);
      LastSetOnly(calls, topic, i, j);
      if Shows(calls, topic, value, now) {
        var k :| IsLastSet(calls, topic, k) && calls[k].retain == value && Lasts(calls[k], now);
        LastSetOnly(calls, topic, i, k);
      }
    }
  }

  // ---- The high-water mark ----

  /** The mark is the largest number of topics stored at any time of the history. */
  lemma {:induction false} PeakExactly(calls: seq<Call>)
    ensures forall i :: 0 <= i <= |calls| ==> |Run(calls[..i]).entries| <= Run(calls).peak
    ensures exists i :: 0 <= i <= |calls| && |Run(calls[..i]).entries| == Run(calls).peak
    decreases |calls|
  {
    hide ApplyAll, Apply;
    if calls == [] {
      assert calls[..0] == calls;
      NothingRun();
    } else {
      var before, c := calls[..|calls| - 1], calls[|calls| - 1];
      assert calls == before + [c] && calls[..|calls|] == calls;
      PeakExactly(before);
      ApplyLast(Store(map[], 0), before, c);
      assert before[..|before|] == before;
      assert |Run(before[..|before|]).entries| <= Run(before).peak;
      PeakStep(Run(before), c);
      var i :| 0 <= i <= |before| && |Run(before[..i]).entries| == Run(before).peak;
      assert forall j :: 0 <= j <= |before| ==> calls[..j] == before[..j];
      if Run(calls).peak == Run(before).peak {
        assert |Run(calls[..i]).entries| == Run(calls).peak;
      } else {
        assert |Run(calls[..|calls|]).entries| == Run(calls).peak;
      }
    }
  }

  lemma NothingRun()
    ensures Run([]) == Store(map[], 0)
  {
  }

  lemma PeakStep(s: Store, c: Call)
    requires |s.entries| <= s.peak
    ensures s.peak <= Apply(s, c).peak && |Apply(s, c).entries| <= Apply(s, c).peak
    ensures Apply(s, c).peak == s.peak || Apply(s, c).peak == |Apply(s, c).entries|
  {
    var live := if c.Read? then Live(s.entries, c.now) else Live(s.entries, c.purgeAt);
    Smaller(live, s.entries);
    if c.Set? { Smaller(live - {c.topic}, live); }
  }

  lemma Smaller(part: Entries, whole: Entries)
    requires part.Keys <= whole.Keys
    ensures |part| <= |whole|
  {
    Subset(part.Keys, whole.Keys);
    assert |part| == |part.Keys| && |whole| == |whole.Keys|;
  }

  lemma {:induction false} Subset(a: set<string>, b: set<string>)
    requires a <= b
    ensures |a| <= |b|
  {
    if a != {} {
      var x :| x in a;
      Subset(a - {x}, b - {x});
    }
  }
}
