/** `sorted(by:)` with a `<` comparison on an integer key, as a stable insertion sort. */
module Sorting {

  predicate SortedBy<T>(s: seq<T>, key: T -> int) {
    forall i, j | 0 <= i < j < |s| :: key(s[i]) <= key(s[j])
  }

  predicate StrictlySortedBy<T>(s: seq<T>, key: T -> int) {
    forall i, j | 0 <= i < j < |s| :: key(s[i]) < key(s[j])
  }

  /** Puts `x` in front of the first element whose key is not smaller. */
  function Insert<T>(x: T, s: seq<T>, key: T -> int): (r: seq<T>)
    requires SortedBy(s, key)
    ensures SortedBy(r, key)
    ensures multiset(r) == multiset(s) + multiset{x}
  {
    if s == [] || key(x) <= key(s[0]) then [x] + s
    else
      var rest := Insert(x, s[1..], key);
      InsertStep(x, s, rest, key);
      [s[0]] + rest
  }

  /** The case of `Insert` that keeps the first element in front. */
  lemma InsertStep<T>(x: T, s: seq<T>, rest: seq<T>, key: T -> int)
    requires SortedBy(s, key) && s != [] && key(s[0]) < key(x)
    requires SortedBy(rest, key)
    requires multiset(rest) == multiset(s[1..]) + multiset{x}
    ensures SortedBy([s[0]] + rest, key)
    ensures multiset([s[0]] + rest) == multiset(s) + multiset{x}
  {
    assert s == [s[0]] + s[1..];
    forall i | 0 <= i < |rest| ensures key(s[0]) <= key(rest[i]) {
      assert rest[i] in multiset(rest);
      if rest[i] != x {
        assert rest[i] in multiset(s[1..]);
      }
    }
    SortedCons(s[0], rest, key);
  }

  lemma SortedCons<T>(x: T, s: seq<T>, key: T -> int)
    requires SortedBy(s, key)
    requires forall i | 0 <= i < |s| :: key(x) <= key(s[i])
    ensures SortedBy([x] + s, key)
  {
    var r := [x] + s;
    forall i, j | 0 <= i < j < |r| ensures key(r[i]) <= key(r[j]) {
      assert r[j] == s[j - 1];
      if i > 0 {
        assert r[i] == s[i - 1];
      }
    }
  }

  /** The elements of `s`, ascending by key. */
  function SortBy<T>(s: seq<T>, key: T -> int): (r: seq<T>)
    ensures SortedBy(r, key)
    ensures multiset(r) == multiset(s)
  {
    if s == [] then []
    else
      assert s == [s[0]] + s[1..];
      Insert(s[0], SortBy(s[1..], key), key)
  }

  /** A sorted rearrangement of a sequence whose keys strictly increase is that sequence. */
  lemma {:induction false} SortedPermutationOfStrict<T>(r: seq<T>, e: seq<T>, key: T -> int)
    requires SortedBy(r, key) && StrictlySortedBy(e, key)
    requires multiset(r) == multiset(e)
    ensures r == e
  {
    assert |r| == |multiset(r)| == |e|;
    if r != [] {
      SameHead(r, e, key);
      TailMultiset(r, e);
      SortedTail(r, key);
      StrictlySortedTail(e, key);
      SortedPermutationOfStrict(r[1..], e[1..], key);
      assert r == [r[0]] + r[1..];
      assert e == [e[0]] + e[1..];
    }
  }

  lemma SameHead<T>(r: seq<T>, e: seq<T>, key: T -> int)
    requires SortedBy(r, key) && StrictlySortedBy(e, key)
    requires multiset(r) == multiset(e) && r != []
    ensures e != [] && r[0] == e[0]
  {
    var x := r[0];
    assert x in multiset(e);
    var i :| 0 <= i < |e| && e[i] == x;
    assert e[0] in multiset(r);
    var j :| 0 <= j < |r| && r[j] == e[0];
    assert key(x) <= key(r[j]);
  }

  lemma TailMultiset<T>(r: seq<T>, e: seq<T>)
    requires multiset(r) == multiset(e) && r != [] && e != [] && r[0] == e[0]
    ensures multiset(r[1..]) == multiset(e[1..])
  {
    assert r == [r[0]] + r[1..];
    assert e == [e[0]] + e[1..];
    assert multiset(r) == multiset{r[0]} + multiset(r[1..]);
    assert multiset(e) == multiset{r[0]} + multiset(e[1..]);
    forall z ensures multiset(r[1..])[z] == multiset(e[1..])[z] {
      assert multiset(r)[z] == multiset{r[0]}[z] + multiset(r[1..])[z];
      assert multiset(e)[z] == multiset{r[0]}[z] + multiset(e[1..])[z];
    }
  }

  lemma SortedTail<T>(s: seq<T>, key: T -> int)
    requires SortedBy(s, key) && s != []
    ensures SortedBy(s[1..], key)
  {
  }

  lemma StrictlySortedTail<T>(s: seq<T>, key: T -> int)
    requires StrictlySortedBy(s, key) && s != []
    ensures StrictlySortedBy(s[1..], key)
  {
  }

  predicate Distinct<T(==)>(s: seq<T>) {
    forall i, j | 0 <= i < j < |s| :: s[i] != s[j]
  }

  /** In a sequence without repetitions every element occurs once. */
  lemma {:induction false} DistinctCount<T>(s: seq<T>, x: T)
    requires Distinct(s)
    ensures multiset(s)[x] == if x in s then 1 else 0
  {
    if s != [] {
      assert s == [s[0]] + s[1..];
      DistinctCount(s[1..], x);
      assert multiset(s)[x] == multiset{s[0]}[x] + multiset(s[1..])[x];
    }
  }

  /** Two sequences without repetitions and with the same elements are rearrangements of
      each other. */
  lemma DistinctSameElements<T>(a: seq<T>, b: seq<T>)
    requires Distinct(a) && Distinct(b)
    requires forall x :: x in a <==> x in b
    ensures multiset(a) == multiset(b)
  {
    forall x ensures multiset(a)[x] == multiset(b)[x] {
      DistinctCount(a, x);
      DistinctCount(b, x);
    }
  }
}
