/** Insertion-ordered maps, as the `indexmap` crate keeps them. */
module IndexMaps {
  import opened Common

  datatype IndexMap<!K(==), V> = IndexMap(order: seq<K>, values: map<K, V>)

  predicate Valid<K, V>(m: IndexMap<K, V>) {
    && Distinct(m.order)
    && Items(m.order) == m.values.Keys
  }

  function Empty<K, V>(): IndexMap<K, V> {
    IndexMap([], map[])
  }

  /** An existing key keeps its position. */
  function Insert<K, V>(m: IndexMap<K, V>, k: K, v: V): IndexMap<K, V> {
    IndexMap(if k in m.values then m.order else m.order + [k], m.values[k := v])
  }

  /** `retain` and `shift_remove`: the order of what stays is unchanged. */
  function Keep<K, V>(m: IndexMap<K, V>, keep: set<K>): IndexMap<K, V> {
    IndexMap(KeepItems(m.order, keep), map k | k in m.values && k in keep :: m.values[k])
  }

  /** `shift_remove_index(0)`, `n` times. */
  function DropOldest<K, V>(m: IndexMap<K, V>, n: nat): IndexMap<K, V>
    requires n <= |m.order|
  {
    IndexMap(m.order[n..], m.values - Items(m.order[..n]))
  }

  /** Trimming to at most `limit` entries, oldest first. */
  function TrimTo<K, V>(m: IndexMap<K, V>, limit: nat): IndexMap<K, V> {
    if |m.order| <= limit then m else DropOldest(m, |m.order| - limit)
  }

  function Trimmed<K, V>(m: IndexMap<K, V>, limit: nat): set<K> {
    if |m.order| <= limit then {} else Items(m.order[..|m.order| - limit])
  }

  lemma InsertValid<K, V>(m: IndexMap<K, V>, k: K, v: V)
    requires Valid(m)
    ensures Valid(Insert(m, k, v))
    ensures |Insert(m, k, v).order| == |m.order| + if k in m.values then 0 else 1
  {
    var r := Insert(m, k, v);
    if k !in m.values {
      assert k !in Items(m.order);
      assert Items(r.order) == Items(m.order) + {k};
    }
  }

  lemma KeepValid<K, V>(m: IndexMap<K, V>, keep: set<K>)
    requires Valid(m)
    ensures Valid(Keep(m, keep)) && |Keep(m, keep).order| <= |m.order|
  {
    KeepDistinct(m.order, keep);
    var r := Keep(m, keep);
    forall k ensures k in Items(r.order) <==> k in r.values.Keys {
      assert k in Items(m.order) <==> k in m.values.Keys;
    }
    assert Items(r.order) == r.values.Keys;
  }

  lemma TrimValid<K, V>(m: IndexMap<K, V>, limit: nat)
    requires Valid(m)
    ensures Valid(TrimTo(m, limit)) && |TrimTo(m, limit).order| == Min(|m.order|, limit)
    ensures TrimTo(m, limit).values == m.values - Trimmed(m, limit)
    ensures Trimmed(m, limit) <= m.values.Keys
  {
    if |m.order| > limit {
      var n := |m.order| - limit;
      assert m.order == m.order[..n] + m.order[n..];
      var r := TrimTo(m, limit);
      forall k ensures k in Items(r.order) <==> k in r.values {
        assert k in Items(m.order) <==> k in m.values;
      }
    }
  }
}
