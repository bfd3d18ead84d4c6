/** `OrderedDictionary` from swift-collections: key/value pairs in insertion order with
    unique keys. Writing an existing key keeps its position; a new key goes to the end. */
module OrderedDict {
  import opened Wrappers

  type OrderedMap<K, V> = seq<(K, V)>

  function Keys<K, V>(m: OrderedMap<K, V>): (r: seq<K>)
    ensures |r| == |m|
    ensures forall i | 0 <= i < |m| :: r[i] == m[i].0
  {
    if m == [] then [] else [m[0].0] + Keys(m[1..])
  }

  predicate UniqueKeys<K(==), V>(m: OrderedMap<K, V>) {
    forall i, j | 0 <= i < j < |m| :: m[i].0 != m[j].0
  }

  /** Subscript read: the value stored under `k`, if any. */
  function Get<K(==), V>(m: OrderedMap<K, V>, k: K): (r: Option<V>)
    ensures r.Some? <==> k in Keys(m)
    ensures r.Some? ==> (k, r.value) in m
  {
    if m == [] then None
    else if m[0].0 == k then Some(m[0].1)
    else
      assert k in Keys(m) ==> k in Keys(m[1..]) by {
        if k in Keys(m) {
          var i :| 0 <= i < |m| && Keys(m)[i] == k;
          assert Keys(m[1..])[i - 1] == k;
        }
      }
      Get(m[1..], k)
  }

  /** In a map with unique keys, a stored pair is what `Get` finds. */
  lemma {:induction false} GetStored<K, V>(m: OrderedMap<K, V>, k: K, v: V)
    requires UniqueKeys(m) && (k, v) in m
    ensures Get(m, k) == Some(v)
  {
    if m[0] != (k, v) {
      assert m[0].0 != k by {
        var i :| 0 <= i < |m| && m[i] == (k, v);
      }
      assert (k, v) in m[1..];
      GetStored(m[1..], k, v);
    }
  }

  /** Subscript write: replaces the value in place when `k` is present, appends otherwise. */
  function Set<K(==,!new), V>(m: OrderedMap<K, V>, k: K, v: V): (r: OrderedMap<K, V>)
    ensures Keys(r) == if k in Keys(m) then Keys(m) else Keys(m) + [k]
    ensures forall x :: Get(r, x) == if x == k then Some(v) else Get(m, x)
    ensures UniqueKeys(m) ==> UniqueKeys(r)
    ensures k !in Keys(m) ==> r == m + [(k, v)]
    ensures forall i | 0 <= i < |r| :: r[i] == (k, v) || r[i] in m
  {
    if m == [] then [(k, v)]
    else if m[0].0 == k then [(k, v)] + m[1..]
    else
      var rest := Set(m[1..], k, v);
      SetStep(m, k, v, rest);
      [m[0]] + rest
  }

  /** The recursive case of `Set`: a write behind a different first key. */
  lemma SetStep<K, V>(m: OrderedMap<K, V>, k: K, v: V, rest: OrderedMap<K, V>)
    requires m != [] && m[0].0 != k
    requires Keys(rest) == if k in Keys(m[1..]) then Keys(m[1..]) else Keys(m[1..]) + [k]
    requires k !in Keys(m[1..]) ==> rest == m[1..] + [(k, v)]
    requires UniqueKeys(m[1..]) ==> UniqueKeys(rest)
    requires forall x :: Get(rest, x) == if x == k then Some(v) else Get(m[1..], x)
    requires forall i | 0 <= i < |rest| :: rest[i] == (k, v) || rest[i] in m[1..]
    ensures Keys([m[0]] + rest) == if k in Keys(m) then Keys(m) else Keys(m) + [k]
    ensures k !in Keys(m) ==> [m[0]] + rest == m + [(k, v)]
    ensures UniqueKeys(m) ==> UniqueKeys([m[0]] + rest)
    ensures forall x :: Get([m[0]] + rest, x) == if x == k then Some(v) else Get(m, x)
    ensures forall i | 0 <= i < |[m[0]] + rest| :: ([m[0]] + rest)[i] == (k, v) || ([m[0]] + rest)[i] in m
  {
    SetStepKeys(m, k, v, rest);
    SetStepUnique(m, k, rest);
    SetStepGet(m, k, v, rest);
    SetStepFrom(m, k, v, rest);
  }

  lemma SetStepKeys<K, V>(m: OrderedMap<K, V>, k: K, v: V, rest: OrderedMap<K, V>)
    requires m != [] && m[0].0 != k
    requires Keys(rest) == if k in Keys(m[1..]) then Keys(m[1..]) else Keys(m[1..]) + [k]
    requires k !in Keys(m[1..]) ==> rest == m[1..] + [(k, v)]
    ensures k in Keys(m) <==> k in Keys(m[1..])
    ensures Keys([m[0]] + rest) == if k in Keys(m) then Keys(m) else Keys(m) + [k]
    ensures k !in Keys(m) ==> [m[0]] + rest == m + [(k, v)]
  {
    KeysCons(m[0], m[1..]);
    KeysCons(m[0], rest);
    assert m == [m[0]] + m[1..];
    if k !in Keys(m) {
      ConsAppend(m[0], m[1..], (k, v));
      ConsAppend(m[0].0, Keys(m[1..]), k);
    }
  }

  lemma SetStepUnique<K, V>(m: OrderedMap<K, V>, k: K, rest: OrderedMap<K, V>)
    requires m != [] && m[0].0 != k
    requires forall x | x in Keys(rest) :: x in Keys(m[1..]) || x == k
    requires UniqueKeys(m[1..]) ==> UniqueKeys(rest)
    ensures UniqueKeys(m) ==> UniqueKeys([m[0]] + rest)
  {
    if UniqueKeys(m) {
      assert m[0].0 !in Keys(m[1..]);
      UniqueCons(m[0], rest);
    }
  }

  lemma SetStepGet<K, V>(m: OrderedMap<K, V>, k: K, v: V, rest: OrderedMap<K, V>)
    requires m != [] && m[0].0 != k
    requires forall x :: Get(rest, x) == if x == k then Some(v) else Get(m[1..], x)
    ensures forall x :: Get([m[0]] + rest, x) == if x == k then Some(v) else Get(m, x)
  {
    assert ([m[0]] + rest)[1..] == rest;
  }

  lemma SetStepFrom<K, V>(m: OrderedMap<K, V>, k: K, v: V, rest: OrderedMap<K, V>)
    requires m != []
    requires forall i | 0 <= i < |rest| :: rest[i] == (k, v) || rest[i] in m[1..]
    ensures forall i | 0 <= i < |[m[0]] + rest| :: ([m[0]] + rest)[i] == (k, v) || ([m[0]] + rest)[i] in m
  {
    var r := [m[0]] + rest;
    forall i | 0 <= i < |r| ensures r[i] == (k, v) || r[i] in m {
      if i > 0 {
        assert r[i] == rest[i - 1];
      }
    }
  }

  lemma KeysCons<K, V>(p: (K, V), m: OrderedMap<K, V>)
    ensures Keys([p] + m) == [p.0] + Keys(m)
  {
    assert ([p] + m)[1..] == m;
  }

  lemma ConsAppend<T>(x: T, s: seq<T>, y: T)
    ensures [x] + (s + [y]) == ([x] + s) + [y]
  {
  }

  lemma UniqueCons<K, V>(p: (K, V), m: OrderedMap<K, V>)
    requires UniqueKeys(m) && p.0 !in Keys(m)
    ensures UniqueKeys([p] + m)
  {
    var r := [p] + m;
    forall i, j | 0 <= i < j < |r| ensures r[i].0 != r[j].0 {
      assert r[j] == m[j - 1] && Keys(m)[j - 1] == m[j - 1].0;
      if i > 0 {
        assert r[i] == m[i - 1];
      }
    }
  }

  /** `merge(other) { current, _ in current }`: the pairs of `other` whose key is new are
      appended in order; present keys keep their current value. */
  function MergeKeepCurrent<K(==,!new), V>(m: OrderedMap<K, V>, other: OrderedMap<K, V>): (r: OrderedMap<K, V>)
    ensures |m| <= |r| && r[..|m|] == m
    ensures forall x :: Get(r, x) == if x in Keys(m) then Get(m, x) else Get(other, x)
    ensures forall x :: x in Keys(r) <==> x in Keys(m) || x in Keys(other)
    ensures UniqueKeys(m) ==> UniqueKeys(r)
    decreases |other|
  {
    if other == [] then m
    else if other[0].0 in Keys(m) then MergeKeepCurrent(m, other[1..])
    else
      var r := MergeKeepCurrent(m + [other[0]], other[1..]);
      MergeAppendStep(m, other, r);
      r
  }

  /** The case of a merge whose first pair has a new key: it is appended, and the rest of
      `other` is merged into the result. */
  lemma MergeAppendStep<K(!new), V>(m: OrderedMap<K, V>, other: OrderedMap<K, V>, r: OrderedMap<K, V>)
    requires other != [] && other[0].0 !in Keys(m)
    requires |m + [other[0]]| <= |r| && r[..|m + [other[0]]|] == m + [other[0]]
    requires forall x :: Get(r, x) == if x in Keys(m + [other[0]]) then Get(m + [other[0]], x) else Get(other[1..], x)
    requires forall x :: x in Keys(r) <==> x in Keys(m + [other[0]]) || x in Keys(other[1..])
    requires UniqueKeys(m + [other[0]]) ==> UniqueKeys(r)
    ensures |m| <= |r| && r[..|m|] == m
    ensures forall x :: Get(r, x) == if x in Keys(m) then Get(m, x) else Get(other, x)
    ensures forall x :: x in Keys(r) <==> x in Keys(m) || x in Keys(other)
    ensures UniqueKeys(m) ==> UniqueKeys(r)
  {
    MergeAppendPrefix(m, other[0], r);
    MergeAppendKeys(m, other, r);
    MergeAppendGet(m, other, r);
    if UniqueKeys(m) {
      UniqueSnoc(m, other[0]);
    }
  }

  lemma MergeAppendPrefix<K, V>(m: OrderedMap<K, V>, p: (K, V), r: OrderedMap<K, V>)
    requires |m + [p]| <= |r| && r[..|m + [p]|] == m + [p]
    ensures |m| <= |r| && r[..|m|] == m
  {
    assert r[..|m|] == r[..|m + [p]|][..|m|];
  }

  lemma MergeAppendKeys<K, V>(m: OrderedMap<K, V>, other: OrderedMap<K, V>, r: OrderedMap<K, V>)
    requires other != []
    requires forall x :: x in Keys(r) <==> x in Keys(m + [other[0]]) || x in Keys(other[1..])
    ensures forall x :: x in Keys(r) <==> x in Keys(m) || x in Keys(other)
  {
    KeysAppend(m, other[0]);
    KeysCons(other[0], other[1..]);
    assert other == [other[0]] + other[1..];
  }

  lemma MergeAppendGet<K(!new), V>(m: OrderedMap<K, V>, other: OrderedMap<K, V>, r: OrderedMap<K, V>)
    requires other != [] && other[0].0 !in Keys(m)
    requires forall x :: Get(r, x) == if x in Keys(m + [other[0]]) then Get(m + [other[0]], x) else Get(other[1..], x)
    ensures forall x :: Get(r, x) == if x in Keys(m) then Get(m, x) else Get(other, x)
  {
    GetAppend(m, other[0]);
    KeysAppend(m, other[0]);
  }

  lemma KeysAppend<K, V>(m: OrderedMap<K, V>, p: (K, V))
    ensures Keys(m + [p]) == Keys(m) + [p.0]
  {
  }

  lemma UniqueSnoc<K, V>(m: OrderedMap<K, V>, p: (K, V))
    requires UniqueKeys(m) && p.0 !in Keys(m)
    ensures UniqueKeys(m + [p])
  {
    var r := m + [p];
    forall i, j | 0 <= i < j < |r| ensures r[i].0 != r[j].0 {
      assert r[i] == m[i] && Keys(m)[i] == m[i].0;
      if j < |m| {
        assert r[j] == m[j];
      }
    }
  }

  /** Every pair of a merge comes from one of its two sides. */
  lemma {:induction false} MergeKeepCurrentFrom<K(!new), V>(m: OrderedMap<K, V>, other: OrderedMap<K, V>)
    ensures forall p | p in MergeKeepCurrent(m, other) :: p in m || p in other
    decreases |other|
  {
    if other != [] {
      if other[0].0 in Keys(m) {
        MergeKeepCurrentFrom(m, other[1..]);
      } else {
        MergeKeepCurrentFrom(m + [other[0]], other[1..]);
      }
    }
  }

  lemma GetAppend<K(!new), V>(m: OrderedMap<K, V>, e: (K, V))
    ensures forall x :: Get(m + [e], x) == if x in Keys(m) then Get(m, x) else if x == e.0 then Some(e.1) else None
  {
    forall x ensures Get(m + [e], x) == if x in Keys(m) then Get(m, x) else if x == e.0 then Some(e.1) else None {
      GetAppendAt(m, e, x);
    }
  }

  lemma {:induction false} GetAppendAt<K, V>(m: OrderedMap<K, V>, e: (K, V), x: K)
    ensures Get(m + [e], x) == if x in Keys(m) then Get(m, x) else if x == e.0 then Some(e.1) else None
  {
    if m != [] {
      assert (m + [e])[1..] == m[1..] + [e];
      GetAppendAt(m[1..], e, x);
      assert Keys(m) == [m[0].0] + Keys(m[1..]);
    }
  }

  /** The pairs of `other` whose key is not among `keys`, in order. */
  function Absent<K(==), V>(keys: seq<K>, other: OrderedMap<K, V>): (r: OrderedMap<K, V>)
    ensures forall i | 0 <= i < |r| :: r[i] in other && r[i].0 !in keys
  {
    if other == [] then []
    else if other[0].0 in keys then Absent(keys, other[1..])
    else [other[0]] + Absent(keys, other[1..])
  }

  /** With unique keys on both sides the merge is the current pairs followed by the new
      pairs of `other`, in `other`'s order. */
  lemma {:induction false} MergeAppendsAbsent<K(!new), V>(m: OrderedMap<K, V>, other: OrderedMap<K, V>)
    requires UniqueKeys(other)
    ensures MergeKeepCurrent(m, other) == m + Absent(Keys(m), other)
    decreases |other|
  {
    if other != [] {
      if other[0].0 in Keys(m) {
        MergeAppendsAbsent(m, other[1..]);
      } else {
        var m' := m + [other[0]];
        MergeAppendsAbsent(m', other[1..]);
        assert Keys(m') == Keys(m) + [other[0].0];
        AbsentSkipsUnused(Keys(m), other[0].0, other[1..]);
      }
    }
  }

  lemma {:induction false} AbsentSkipsUnused<K, V>(keys: seq<K>, k: K, other: OrderedMap<K, V>)
    requires k !in Keys(other)
    ensures Absent(keys + [k], other) == Absent(keys, other)
  {
    if other != [] {
      assert Keys(other) == [other[0].0] + Keys(other[1..]);
      AbsentSkipsUnused(keys, k, other[1..]);
    }
  }
}
