/** Vocabulary shared by the modules of this project. */
module Common {

  datatype Option<+T> = None | Some(value: T)

  /** Machine integers of the original: `usize` is taken to be 64 bits wide. */
  const U32_MAX: nat := 0xFFFF_FFFF
  const U64_MAX: nat := 0xFFFF_FFFF_FFFF_FFFF
  const USIZE_MAX: nat := U64_MAX

  type u32 = x: int | 0 <= x <= U32_MAX
  type byte = x: int | 0 <= x < 256

  function Min(a: int, b: int): int {
    if a <= b then a else b
  }

  function Max(a: int, b: int): int {
    if a <= b then b else a
  }

  predicate Distinct<T(==)>(s: seq<T>) {
    forall i, j :: 0 <= i < j < |s| ==> s[i] != s[j]
  }

  function Items<T(==)>(s: seq<T>): set<T> {
    set x | x in s
  }

  function RemoveAt<T>(s: seq<T>, i: nat): seq<T>
    requires i < |s|
  {
    s[..i] + s[i + 1..]
  }

  /** The items of `s` that are in `keep`, in order. */
  function KeepItems<T(==)>(s: seq<T>, keep: set<T>): (r: seq<T>)
    ensures |r| <= |s|
    ensures forall i :: 0 <= i < |r| ==> r[i] in s && r[i] in keep
    ensures forall i :: 0 <= i < |s| && s[i] in keep ==> s[i] in r
  {
    if s == [] then []
    else if s[0] in keep then [s[0]] + KeepItems(s[1..], keep)
    else KeepItems(s[1..], keep)
  }

  lemma KeepStep<T>(s: seq<T>, keep: set<T>)
    requires s != []
    ensures KeepItems(s, keep) == if s[0] in keep then [s[0]] + KeepItems(s[1..], keep) else KeepItems(s[1..], keep)
    ensures |KeepItems(s, keep)| <= |s|
  {
  }

  lemma KeepNothing<T>(keep: set<T>)
    ensures KeepItems([], keep) == []
  {
  }

  lemma {:induction false} DistinctCount<T>(s: seq<T>)
    requires Distinct(s)
    ensures |Items(s)| == |s|
  {
    if s != [] {
      DistinctCount(s[1..]);
      assert Items(s) == {s[0]} + Items(s[1..]);
    }
  }

  lemma {:induction false} KeepDistinct<T>(s: seq<T>, keep: set<T>)
    requires Distinct(s)
    ensures Distinct(KeepItems(s, keep))
  {
    if s != [] {
      KeepDistinct(s[1..], keep);
    }
  }

  /** Only which items of `s` are kept matters. */
  lemma {:induction false} KeepAgrees<T>(s: seq<T>, keep: set<T>, other: set<T>)
    requires forall x :: x in s ==> (x in keep <==> x in other)
    ensures KeepItems(s, keep) == KeepItems(s, other)
  {
    if s != [] {
      KeepAgrees(s[1..], keep, other);
    }
  }

  lemma {:induction false} KeepAppend<T>(s: seq<T>, x: T, keep: set<T>)
    ensures KeepItems(s + [x], keep) == KeepItems(s, keep) + if x in keep then [x] else []
  {
    if s == [] {
      assert s + [x] == [x];
    } else {
      KeepAppend(s[1..], x, keep);
      assert (s + [x])[1..] == s[1..] + [x];
    }
  }

  lemma FirstOfConcat<T>(a: seq<T>, b: seq<T>)
    requires a != []
    ensures (a + b)[0] == a[0] && (a + b)[1..] == a[1..] + b
  {
  }

  lemma Regroup<T>(a: seq<T>, b: seq<T>, c: seq<T>)
    ensures a + (b + c) == (a + b) + c
  {
  }

  lemma {:induction false} KeepConcat<T>(a: seq<T>, b: seq<T>, keep: set<T>)
    ensures KeepItems(a + b, keep) == KeepItems(a, keep) + KeepItems(b, keep)
  {
    hide KeepItems;
    if a == [] {
      assert a + b == b;
      KeepNothing(keep);
    } else {
      KeepConcat(a[1..], b, keep);
      FirstOfConcat(a, b);
      KeepStep(a, keep);
      KeepStep(a + b, keep);
      Regroup([a[0]], KeepItems(a[1..], keep), KeepItems(b, keep));
    }
  }

  /** Each item is either kept or dropped. */
  lemma {:induction false} KeepCounts<T>(s: seq<T>, keep: set<T>, drop: set<T>)
    requires forall x :: x in s ==> (x in keep <==> x !in drop)
    ensures |KeepItems(s, keep)| + |KeepItems(s, drop)| == |s|
  {
    if s != [] {
      KeepCounts(s[1..], keep, drop);
    }
  }

  /** Keeping exactly the items from position `p` on. */
  lemma {:induction false} KeepSuffix<T>(s: seq<T>, keep: set<T>, p: nat)
    requires p <= |s|
    requires forall i :: 0 <= i < |s| ==> (s[i] in keep <==> i >= p)
    ensures KeepItems(s, keep) == s[p..]
  {
    hide KeepItems;
    if s == [] {
      KeepNothing(keep);
    } else {
      var later := if p == 0 then 0 else p - 1;
      assert forall i :: 0 <= i < |s| - 1 ==> s[1..][i] == s[i + 1];
      KeepSuffix(s[1..], keep, later);
      KeepStep(s, keep);
      assert s[0] in keep <==> p == 0;
      assert s[p..] == if p == 0 then [s[0]] + s[1..][later..] else s[1..][later..];
    }
  }

  lemma RemoveLater<T>(s: seq<T>, q: nat)
    requires 0 < q < |s|
    ensures RemoveAt(s, q) == [s[0]] + RemoveAt(s[1..], q - 1)
  {
  }

  lemma {:induction false} KeepAllBut<T>(s: seq<T>, keep: set<T>, q: nat)
    requires q < |s|
    requires forall i :: 0 <= i < |s| ==> (s[i] in keep <==> i != q)
    ensures KeepItems(s, keep) == RemoveAt(s, q)
  {
    if q == 0 {
      KeepSuffix(s, keep, 1);
    } else {
      assert forall i :: 0 <= i < |s| - 1 ==> s[1..][i] == s[i + 1];
      KeepAllBut(s[1..], keep, q - 1);
      RemoveLater(s, q);
    }
  }
}
