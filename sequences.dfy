/** Sequence utilities that stand in for the database's sort, count and
    query-listing operations. */
module Sequences {

  /** No element occurs twice: a query returns each document once. */
  predicate Distinct<T(==)>(s: seq<T>) {
    forall i, j :: 0 <= i < j < |s| ==> s[i] != s[j]
  }

  /** `s` is in ascending order of `key` (ties in any order). */
  predicate SortedBy<T>(s: seq<T>, key: T -> int) {
    forall i, j :: 0 <= i < j < |s| ==> key(s[i]) <= key(s[j])
  }

  /** Inserts `x` into `s` before the first element whose key is not
      smaller; into a sorted `s`, that is its place in the order. */
  function Insert<T(==)>(s: seq<T>, x: T, key: T -> int): (r: seq<T>)
    ensures multiset(r) == multiset(s) + multiset{x}
    ensures |r| == |s| + 1
  {
    if s == [] || key(x) <= key(s[0]) then
      [x] + s
    else
      assert s == [s[0]] + s[1..];
      [s[0]] + Insert(s[1..], x, key)
  }

  /** The inserted sequence holds the old elements and `x`, and nothing else. */
  lemma InsertMembers<T>(s: seq<T>, x: T, key: T -> int, y: T)
    ensures y in Insert(s, x, key) <==> y in s || y == x
  {
    assert y in Insert(s, x, key) <==> y in multiset(Insert(s, x, key));
  }

  /** Inserting into a sorted sequence keeps it sorted. */
  lemma {:induction false} InsertSorted<T>(s: seq<T>, x: T, key: T -> int)
    requires SortedBy(s, key)
    ensures SortedBy(Insert(s, x, key), key)
  {
    if s != [] && key(x) > key(s[0]) {
      var t := Insert(s[1..], x, key);
      InsertSorted(s[1..], x, key);
      forall j | 0 <= j < |t| ensures key(s[0]) <= key(t[j]) {
        InsertMembers(s[1..], x, key, t[j]);
      }
      var r := [s[0]] + t;
      assert forall j :: 0 < j < |r| ==> r[j] == t[j - 1];
    }
  }

  /** Inserting an element that is not yet present keeps the elements distinct. */
  lemma {:induction false} InsertDistinct<T>(s: seq<T>, x: T, key: T -> int)
    requires Distinct(s) && x !in s
    ensures Distinct(Insert(s, x, key))
  {
    if s != [] && key(x) > key(s[0]) {
      var t := Insert(s[1..], x, key);
      InsertDistinct(s[1..], x, key);
      InsertMembers(s[1..], x, key, s[0]);
      assert s[0] !in t;
      var r := [s[0]] + t;
      assert forall j :: 0 < j < |r| ==> r[j] == t[j - 1];
    }
  }

  /** In a sequence without repetitions every element occurs at most once. */
  lemma {:induction false} DistinctMultiplicity<T>(s: seq<T>, x: T)
    requires Distinct(s)
    ensures multiset(s)[x] <= 1
  {
    if s != [] {
      assert s == [s[0]] + s[1..];
      assert Distinct(s[1..]);
      DistinctMultiplicity(s[1..], x);
      if x == s[0] {
        assert x !in s[1..];
      }
    }
  }

  /** Drawing elements from a sequence without repetitions, none more often
      than it occurs, gives a sequence without repetitions. */
  lemma SubMultisetDistinct<T>(t: seq<T>, s: seq<T>)
    requires Distinct(s) && multiset(t) <= multiset(s)
    ensures Distinct(t)
  {
    forall i, j | 0 <= i < j < |t| ensures t[i] != t[j] {
      DistinctMultiplicity(s, t[i]);
      assert t == t[..j] + t[j..];
      assert t[i] in t[..j] && t[j..][0] == t[j];
      assert multiset(t)[t[i]] == multiset(t[..j])[t[i]] + multiset(t[j..])[t[i]];
    }
  }

  /** Sorts `s` in ascending order of `key` by repeated insertion. */
  function SortBy<T(==)>(s: seq<T>, key: T -> int): (r: seq<T>)
    ensures SortedBy(r, key)
    ensures multiset(r) == multiset(s)
    ensures |r| == |s|
  {
    if s == [] then []
    else
      assert s == [s[0]] + s[1..];
      var t := SortBy(s[1..], key);
      InsertSorted(t, s[0], key);
      Insert(t, s[0], key)
  }

  /** Number of elements of `s` that satisfy `p`. */
  function Count<T>(s: seq<T>, p: T -> bool): (n: nat)
    ensures n <= |s|
  {
    if s == [] then 0 else (if p(s[0]) then 1 else 0) + Count(s[1..], p)
  }

  /** A sequence without repetitions has as many elements as its set. */
  lemma {:induction false} DistinctCardinality<T>(s: seq<T>)
    requires Distinct(s)
    ensures |set x | x in s| == |s|
  {
    if s != [] {
      var init := s[..|s| - 1];
      DistinctCardinality(init);
      assert (set x | x in s) == (set x | x in init) + {s[|s| - 1]};
      assert s[|s| - 1] !in init;
    }
  }

  /** Lists the keys of `m` whose values satisfy `keep`, each once, in
      ascending order of `key`: the shape of a `find(filter).sort(order)`
      query over a collection. Ties come out in an unspecified order. */
  method SortedKeys<K(==), V>(m: map<K, V>, keep: V -> bool, key: V -> int) returns (r: seq<K>)
    ensures Distinct(r)
    ensures forall k :: k in r <==> k in m && keep(m[k])
    ensures forall i, j :: 0 <= i < j < |r| ==> key(m[r[i]]) <= key(m[r[j]])
  {
    var keyOf := (k: K) => if k in m then key(m[k]) else 0;
    var rest := m.Keys;
    r := [];
    while rest != {}
      invariant rest <= m.Keys
      invariant Distinct(r)
      invariant SortedBy(r, keyOf)
      invariant forall k :: k in r ==> k in m && keep(m[k]) && k !in rest
      invariant forall k :: k in m && k !in rest && keep(m[k]) ==> k in r
      decreases rest
    {
      var k :| k in rest;
      if keep(m[k]) {
        InsertDistinct(r, k, keyOf);
        InsertSorted(r, k, keyOf);
        var r' := Insert(r, k, keyOf);
        forall y | y in r' ensures y in r || y == k {
          InsertMembers(r, k, keyOf, y);
        }
        forall y | y in r || y == k ensures y in r' {
          InsertMembers(r, k, keyOf, y);
        }
        r := r';
      }
      rest := rest - {k};
    }
    forall i, j | 0 <= i < j < |r|
      ensures key(m[r[i]]) <= key(m[r[j]])
    {
      assert keyOf(r[i]) <= keyOf(r[j]);
    }
  }
}
