/**
 The digest table against the plain history of acceptances: which messages count as
 repeats depends on that history alone, never on when sweeps ran.
 */
module DedupLaws {
  import opened Common
  import opened IndexMaps
  import opened Ingress

  datatype Acceptance = Acceptance(digest: string, expires: nat)

  type Table = IndexMap<string, nat>

  /** The table as a list, oldest row first. */
  function Rows(t: Table): seq<Acceptance>
    requires Valid(t)
  {
    seq(|t.order|, i requires 0 <= i < |t.order| => RowAt(t, i))
  }

  function RowAt(t: Table, i: nat): Acceptance
    requires Valid(t) && i < |t.order|
  {
    assert t.order[i] in Items(t.order);
    Acceptance(t.order[i], t.values[t.order[i]])
  }

  /** Expiries never decrease along the list, nor pass `bound`. */
  predicate Ascending(rows: seq<Acceptance>, bound: nat) {
    && (forall i, j :: 0 <= i < j < |rows| ==> rows[i].expires <= rows[j].expires)
    && (forall i :: 0 <= i < |rows| ==> rows[i].expires <= bound)
  }

  /** The history answer: one of the last 50,000 acceptances is this digest, unexpired. */
  predicate RepeatedIn(history: seq<Acceptance>, digest: string, now: nat) {
    exists i :: Max(0, |history| - MAX_INGRESS_DEDUP_ENTRIES) <= i < |history| && history[i].digest == digest && history[i].expires > now
  }

  /** The last `n` rows are the last `n` acceptances; no other row, and no other acceptance that the
      cap would have kept, is unexpired. */
  predicate Tail(rows: seq<Acceptance>, history: seq<Acceptance>, n: nat, now: nat) {
    && n <= |rows| && n <= |history| && n <= MAX_INGRESS_DEDUP_ENTRIES
    && (forall j :: |history| - n <= j < |history| ==> rows[|rows| - |history| + j] == history[j])
    && (forall i :: 0 <= i < |rows| - n ==> rows[i].expires <= now)
    && (forall i :: 0 <= i < |history| - n ==> history[i].expires <= now || i < |history| - MAX_INGRESS_DEDUP_ENTRIES)
  }

  ghost predicate Mirrors(rows: seq<Acceptance>, history: seq<Acceptance>, now: nat, bound: nat) {
    && Ascending(rows, bound) && Ascending(history, bound)
    && |rows| <= MAX_INGRESS_DEDUP_ENTRIES
    && exists n: nat :: Tail(rows, history, n, now)
  }

  ghost predicate Reflects(t: Table, history: seq<Acceptance>, now: nat, bound: nat) {
    Valid(t) && Mirrors(Rows(t), history, now, bound)
  }

  // ---- The list ----

  lemma DropMirrors(rows: seq<Acceptance>, history: seq<Acceptance>, now: nat, bound: nat, p: nat)
    requires Mirrors(rows, history, now, bound) && p <= |rows|
    requires forall i :: 0 <= i < p ==> rows[i].expires <= now
    ensures Mirrors(rows[p..], history, now, bound)
  {
    var n: nat :| Tail(rows, history, n, now);
    var m := Min(n, |rows| - p);
    forall i | 0 <= i < |history| - m ensures history[i].expires <= now || i < |history| - MAX_INGRESS_DEDUP_ENTRIES {
      if i >= |history| - n {
        assert rows[|rows| - |history| + i] == history[i];
      }
    }
    assert Tail(rows[p..], history, m, now);
  }

  lemma AscendingRemoves(rows: seq<Acceptance>, bound: nat, q: nat)
    requires Ascending(rows, bound) && q < |rows|
    ensures Ascending(RemoveAt(rows, q), bound)
  {
    assert forall i :: 0 <= i < |rows| - 1 ==> RemoveAt(rows, q)[i] == rows[if i < q then i else i + 1];
  }

  lemma TailRemoves(rows: seq<Acceptance>, history: seq<Acceptance>, n: nat, now: nat, q: nat)
    requires Tail(rows, history, n, now) && q < |rows|
    requires forall i :: 0 <= i <= q ==> rows[i].expires <= now
    ensures Tail(RemoveAt(rows, q), history, if q < |rows| - n then n else |rows| - 1 - q, now)
  {
    var m := if q < |rows| - n then n else |rows| - 1 - q;
    var rest := RemoveAt(rows, q);
    assert forall i :: 0 <= i < |rest| ==> rest[i] == rows[if i < q then i else i + 1];
    forall j | |history| - m <= j < |history| ensures rest[|rest| - |history| + j] == history[j] {
      assert rows[|rows| - |history| + j] == history[j];
    }
    forall i | 0 <= i < |history| - m ensures history[i].expires <= now || i < |history| - MAX_INGRESS_DEDUP_ENTRIES {
      if i >= |history| - n {
        assert rows[|rows| - |history| + i] == history[i];
      }
    }
  }

  lemma RemoveMirrors(rows: seq<Acceptance>, history: seq<Acceptance>, now: nat, bound: nat, q: nat)
    requires Mirrors(rows, history, now, bound) && q < |rows| && rows[q].expires <= now
    ensures Mirrors(RemoveAt(rows, q), history, now, bound)
  {
    var n: nat :| Tail(rows, history, n, now);
    AscendingRemoves(rows, bound, q);
    assert forall i :: 0 <= i <= q ==> rows[i].expires <= now;
    hide Tail, Ascending;
    TailRemoves(rows, history, n, now, q);
  }

  /** A new acceptance goes last; beyond the cap the row that expires soonest makes room. */
  lemma AppendMirrors(rows: seq<Acceptance>, history: seq<Acceptance>, now: nat, bound: nat, a: Acceptance)
    requires Mirrors(rows, history, now, bound) && a.expires >= bound
    ensures |rows| <= MAX_INGRESS_DEDUP_ENTRIES
    ensures Mirrors(if |rows| < MAX_INGRESS_DEDUP_ENTRIES then rows + [a] else (rows + [a])[1..], history + [a], now, a.expires)
  {
    var n: nat :| Tail(rows, history, n, now);
    TailGrows(rows, history, n, now, a);
    var after := if |rows| < MAX_INGRESS_DEDUP_ENTRIES then rows + [a] else (rows + [a])[1..];
    hide Tail;
    assert Tail(after, history + [a], Min(n + 1, MAX_INGRESS_DEDUP_ENTRIES), now);
  }

  lemma TailGrows(rows: seq<Acceptance>, history: seq<Acceptance>, n: nat, now: nat, a: Acceptance)
    requires Tail(rows, history, n, now) && |rows| <= MAX_INGRESS_DEDUP_ENTRIES
    ensures Tail(if |rows| < MAX_INGRESS_DEDUP_ENTRIES then rows + [a] else (rows + [a])[1..],
                 history + [a], Min(n + 1, MAX_INGRESS_DEDUP_ENTRIES), now)
  {
    var after, grown := if |rows| < MAX_INGRESS_DEDUP_ENTRIES then rows + [a] else (rows + [a])[1..], history + [a];
    var m := Min(n + 1, MAX_INGRESS_DEDUP_ENTRIES);
    forall j | |grown| - m <= j < |grown| ensures after[|after| - |grown| + j] == grown[j] {
      if j < |history| {
        assert rows[|rows| - |history| + j] == history[j];
      }
    }
  }

  // ---- The table as its list ----

  predicate Lists(t: Table, rows: seq<Acceptance>) {
    && |rows| == |t.order|
    && forall i :: 0 <= i < |rows| ==>
         && t.order[i] == rows[i].digest && rows[i].digest in t.values && t.values[rows[i].digest] == rows[i].expires
  }

  lemma RowsAreListed(t: Table)
    requires Valid(t)
    ensures Lists(t, Rows(t)) && |Rows(t)| == |t.order|
  {
    forall i | 0 <= i < |t.order| ensures Rows(t)[i] == RowAt(t, i) && t.order[i] in t.values {
      assert t.order[i] in Items(t.order);
    }
  }

  lemma ListIsRows(t: Table, rows: seq<Acceptance>)
    requires Valid(t) && Lists(t, rows)
    ensures Rows(t) == rows
  {
    hide Valid;
    forall i | 0 <= i < |rows| ensures Rows(t)[i] == rows[i] {
      assert Rows(t)[i] == RowAt(t, i);
    }
  }

  lemma RemoveKey(t: Table, q: nat)
    requires Valid(t) && q < |t.order|
    ensures var r := Keep(t, t.values.Keys - {t.order[q]});
            && Valid(r) && r.order == t.order[..q] + t.order[q + 1..]
            && r.values == t.values - {t.order[q]}
            && forall i :: 0 <= i < |t.order| && i != q ==> t.order[i] != t.order[q]
  {
    var keep := t.values.Keys - {t.order[q]};
    forall i | 0 <= i < |t.order| ensures t.order[i] in keep <==> i != q {
      assert t.order[i] in Items(t.order);
    }
    KeepAllBut(t.order, keep, q);
    KeepValid(t, keep);
  }

  lemma ListWithout(t: Table, rows: seq<Acceptance>, q: nat, r: Table)
    requires Lists(t, rows) && q < |rows|
    requires r.order == t.order[..q] + t.order[q + 1..] && r.values == t.values - {t.order[q]}
    requires forall i :: 0 <= i < |t.order| && i != q ==> t.order[i] != t.order[q]
    ensures Lists(r, RemoveAt(rows, q))
  {
    var left := RemoveAt(rows, q);
    forall i | 0 <= i < |left|
      ensures r.order[i] == left[i].digest && left[i].digest in r.values && r.values[left[i].digest] == left[i].expires
    {
      var k := if i < q then i else i + 1;
      assert left[i] == rows[k] && r.order[i] == t.order[k];
    }
  }

  lemma RemoveRow(t: Table, q: nat)
    requires Valid(t) && q < |t.order|
    ensures Valid(Keep(t, t.values.Keys - {t.order[q]})) && t.order[q] !in Keep(t, t.values.Keys - {t.order[q]}).values
    ensures Rows(Keep(t, t.values.Keys - {t.order[q]})) == RemoveAt(Rows(t), q)
  {
    RowsAreListed(t);
    RemoveKey(t, q);
    hide Keep, KeepItems, Rows, Valid;
    ListWithout(t, Rows(t), q, Keep(t, t.values.Keys - {t.order[q]}));
    hide Lists;
    ListIsRows(Keep(t, t.values.Keys - {t.order[q]}), RemoveAt(Rows(t), q));
  }

  lemma InsertRow(t: Table, digest: string, expires: nat)
    requires Valid(t) && digest !in t.values
    ensures Valid(Insert(t, digest, expires))
    ensures Rows(Insert(t, digest, expires)) == Rows(t) + [Acceptance(digest, expires)]
  {
    RowsAreListed(t);
    InsertValid(t, digest, expires);
    hide Rows, Valid;
    ListIsRows(Insert(t, digest, expires), Rows(t) + [Acceptance(digest, expires)]);
  }

  lemma DropRows(t: Table, n: nat)
    requires Valid(t) && n <= |t.order|
    ensures Valid(DropOldest(t, n)) && Rows(DropOldest(t, n)) == Rows(t)[n..]
  {
    RowsAreListed(t);
    DropValid(t, n);
    hide Rows, Valid;
    ListIsRows(DropOldest(t, n), Rows(t)[n..]);
  }

  lemma DropValid(t: Table, n: nat)
    requires Valid(t) && n <= |t.order|
    ensures Valid(DropOldest(t, n))
    ensures forall i :: n <= i < |t.order| ==> t.order[i] !in Items(t.order[..n])
  {
    var r := DropOldest(t, n);
    assert t.order == t.order[..n] + t.order[n..];
    forall k ensures k in Items(r.order) <==> k in r.values {
      assert k in Items(t.order) <==> k in t.values;
    }
  }

  /** The number of expired rows at the front. */
  function Expired(rows: seq<Acceptance>, now: nat): (p: nat)
    ensures p <= |rows|
    ensures forall i :: 0 <= i < p ==> rows[i].expires <= now
    ensures p < |rows| ==> rows[p].expires > now
  {
    if rows == [] || rows[0].expires > now then 0 else 1 + Expired(rows[1..], now)
  }

  /** A sweep removes exactly the expired rows, and they are a prefix of the table. */
  lemma SweepDropsPrefix(t: Table, now: nat, bound: nat)
    requires Valid(t) && Ascending(Rows(t), bound)
    ensures Keep(t, LiveDigests(t, now)) == DropOldest(t, Expired(Rows(t), now))
  {
    var rows := Rows(t);
    var p := Expired(rows, now);
    forall i | 0 <= i < |t.order| ensures t.order[i] in LiveDigests(t, now) <==> i >= p {
      assert rows[i] == RowAt(t, i);
      assert i >= p ==> rows[i].expires >= rows[p].expires;
    }
    KeepIsDrop(t, LiveDigests(t, now), p);
  }

  lemma KeepIsDrop(t: Table, keep: set<string>, p: nat)
    requires Valid(t) && p <= |t.order|
    requires forall i :: 0 <= i < |t.order| ==> (t.order[i] in keep <==> i >= p)
    ensures Keep(t, keep) == DropOldest(t, p)
  {
    hide Valid, KeepItems, Items;
    KeepSuffix(t.order, keep, p);
    KeptValues(t, keep, p);
  }

  lemma KeptValues(t: Table, keep: set<string>, p: nat)
    requires Valid(t) && p <= |t.order|
    requires forall i :: 0 <= i < |t.order| ==> (t.order[i] in keep <==> i >= p)
    ensures Keep(t, keep).values == t.values - Items(t.order[..p])
  {
    hide Valid, KeepItems, Items;
    forall k | k in t.values ensures k in keep <==> k !in Items(t.order[..p]) {
      KeptOrDropped(t, keep, p, k);
    }
  }

  lemma KeptOrDropped(t: Table, keep: set<string>, p: nat, k: string)
    requires Valid(t) && p <= |t.order| && k in t.values
    requires forall i :: 0 <= i < |t.order| ==> (t.order[i] in keep <==> i >= p)
    ensures k in keep <==> k !in Items(t.order[..p])
  {
    assert k in Items(t.order);
    var i :| 0 <= i < |t.order| && t.order[i] == k;
    if i < p { assert t.order[..p][i] == k; }
  }

  // ---- What every use of the table keeps ----

  lemma TimeReflects(t: Table, history: seq<Acceptance>, now: nat, bound: nat, later: nat, bound': nat)
    requires Reflects(t, history, now, bound) && later >= now && bound' >= bound
    ensures Reflects(t, history, later, bound')
  {
    var n: nat :| Tail(Rows(t), history, n, now);
    assert Tail(Rows(t), history, n, later);
  }

  predicate RepeatedRow(rows: seq<Acceptance>, digest: string, now: nat) {
    exists i :: 0 <= i < |rows| && rows[i].digest == digest && rows[i].expires > now
  }

  lemma QueryRows(t: Table, digest: string, now: nat)
    requires Valid(t)
    ensures Repeated(t, digest, now) <==> RepeatedRow(Rows(t), digest, now)
  {
    RowsAreListed(t);
    if Repeated(t, digest, now) {
      assert digest in Items(t.order);
      hide Rows, Valid;
      var i :| 0 <= i < |t.order| && t.order[i] == digest;
      assert Rows(t)[i].expires > now;
    }
  }

  lemma QueryMirrors(rows: seq<Acceptance>, history: seq<Acceptance>, now: nat, bound: nat, digest: string)
    requires Mirrors(rows, history, now, bound)
    ensures RepeatedRow(rows, digest, now) <==> RepeatedIn(history, digest, now)
  {
    var n: nat :| Tail(rows, history, n, now);
    hide Ascending;
    if RepeatedRow(rows, digest, now) {
      var i :| 0 <= i < |rows| && rows[i].digest == digest && rows[i].expires > now;
      var j := i + |history| - |rows|;
      assert rows[|rows| - |history| + j] == history[j];
    }
    if RepeatedIn(history, digest, now) {
      var j :| Max(0, |history| - MAX_INGRESS_DEDUP_ENTRIES) <= j < |history| && history[j].digest == digest && history[j].expires > now;
      assert rows[|rows| - |history| + j] == history[j];
    }
  }

  /** A digest is a repeat for the table exactly when it is one for the history. */
  lemma QueryReflects(t: Table, history: seq<Acceptance>, now: nat, bound: nat, digest: string)
    requires Reflects(t, history, now, bound)
    ensures Repeated(t, digest, now) <==> RepeatedIn(history, digest, now)
  {
    QueryRows(t, digest, now);
    QueryMirrors(Rows(t), history, now, bound, digest);
  }

  lemma SweepReflects(t: Table, history: seq<Acceptance>, now: nat, bound: nat)
    requires Reflects(t, history, now, bound)
    ensures Reflects(Keep(t, LiveDigests(t, now)), history, now, bound)
  {
    var p := Expired(Rows(t), now);
    SweepDropsPrefix(t, now, bound);
    DropMirrors(Rows(t), history, now, bound, p);
    DropRows(t, p);
  }

  lemma AppendReflects(t: Table, history: seq<Acceptance>, now: nat, bound: nat, digest: string, expires: nat)
    requires Reflects(t, history, now, bound) && digest !in t.values && expires >= bound
    ensures Reflects(TrimTo(Insert(t, digest, expires), MAX_INGRESS_DEDUP_ENTRIES), history + [Acceptance(digest, expires)], now, expires)
  {
    hide Rows, Mirrors, Valid, Insert, Items;
    var grown := Insert(t, digest, expires);
    InsertRow(t, digest, expires);
    AppendMirrors(Rows(t), history, now, bound, Acceptance(digest, expires));
    RowsAreListed(t);
    RowsAreListed(grown);
    if |grown.order| > MAX_INGRESS_DEDUP_ENTRIES {
      DropRows(grown, 1);
    }
  }

  /** Recording a message that is not a repeat, whether or not an expired row of it is still there. */
  lemma RecordReflects(t: Table, history: seq<Acceptance>, now: nat, bound: nat, digest: string, expires: nat)
    requires Reflects(t, history, now, bound) && !Repeated(t, digest, now) && expires >= bound
    ensures Reflects(Record(t, digest, expires), history + [Acceptance(digest, expires)], now, expires)
  {
    if digest in t.values {
      assert digest in Items(t.order);
      var q :| 0 <= q < |t.order| && t.order[q] == digest;
      assert Rows(t)[q] == RowAt(t, q);
      RemoveRow(t, q);
      RemoveMirrors(Rows(t), history, now, bound, q);
      hide Mirrors, Keep, Insert, TrimTo, Rows;
      AppendReflects(Keep(t, t.values.Keys - {digest}), history, now, bound, digest, expires);
    } else {
      AppendReflects(t, history, now, bound, digest, expires);
    }
  }
}
