/**
 * Sequence operations that the mind-map state is built from: `Filter` is the
 * model of JavaScript's `Array.prototype.filter`, and `DistinctBy` states that
 * a key is unique across a sequence.
 */
module Seqs {

  /** `a` is obtained from `s` by deleting zero or more elements. */
  ghost predicate IsSubsequence<T>(a: seq<T>, s: seq<T>)
    decreases |s|
  {
    if a == [] then true
    else if s == [] then false
    else (a[0] == s[0] && IsSubsequence(a[1..], s[1..])) || IsSubsequence(a, s[1..])
  }

  /**
   * The elements of `s` that satisfy `p`, in their original order. Together,
   * the subsequence and the count clauses determine the result uniquely: every
   * occurrence of a kept value is kept, and no other element is.
   */
  function Filter<T(!new)>(p: T -> bool, s: seq<T>): (r: seq<T>)
    ensures IsSubsequence(r, s)
    ensures forall x :: x in r <==> x in s && p(x)
    ensures forall x :: multiset(r)[x] == if p(x) then multiset(s)[x] else 0
  {
    if s == [] then []
    else
      var rest := Filter(p, s[1..]);
      assert s == [s[0]] + s[1..];
      if p(s[0]) then
        var r := [s[0]] + rest;
        assert r[1..] == rest;
        r
      else rest
  }

  /** No two elements of `s` share a key. */
  ghost predicate DistinctBy<T, K>(key: T -> K, s: seq<T>)
  {
    forall i, j :: 0 <= i < j < |s| ==> key(s[i]) != key(s[j])
  }

  /** Filtering keeps the order of the elements: it distributes over concatenation. */
  lemma {:induction false} FilterConcat<T(!new)>(p: T -> bool, a: seq<T>, b: seq<T>)
    ensures Filter(p, a + b) == Filter(p, a) + Filter(p, b)
  {
    if a == [] {
      assert a + b == b;
    } else {
      assert (a + b)[0] == a[0];
      assert (a + b)[1..] == a[1..] + b;
      FilterConcat(p, a[1..], b);
    }
  }

  /** A sequence all of whose elements pass the test is its own filter. */
  lemma {:induction false} FilterAll<T(!new)>(p: T -> bool, s: seq<T>)
    requires forall x :: x in s ==> p(x)
    ensures Filter(p, s) == s
  {
    if s != [] {
      assert s[0] in s;
      assert forall x :: x in s[1..] ==> x in s;
      FilterAll(p, s[1..]);
    }
  }

  /** A sequence none of whose elements pass the test filters to nothing. */
  lemma FilterNone<T(!new)>(p: T -> bool, s: seq<T>)
    requires forall x :: x in s ==> !p(x)
    ensures Filter(p, s) == []
  {
  }

  /** Two filters in a row are one filter by the conjunction of their tests. */
  lemma {:induction false} FilterFilter<T(!new)>(p: T -> bool, q: T -> bool, pq: T -> bool, s: seq<T>)
    requires forall x :: pq(x) == (q(x) && p(x))
    ensures Filter(p, Filter(q, s)) == Filter(pq, s)
  {
    if s != [] {
      var head := if q(s[0]) then [s[0]] else [];
      FilterConcat(p, head, Filter(q, s[1..]));
      FilterFilter(p, q, pq, s[1..]);
    }
  }

  /** A key unique across a non-empty sequence is unique across its tail and differs from the head's. */
  lemma DistinctSplit<T, K>(key: T -> K, s: seq<T>)
    requires DistinctBy(key, s) && s != []
    ensures DistinctBy(key, s[1..])
    ensures forall y :: y in s[1..] ==> key(y) != key(s[0])
  {
  }

  /** A key that is unique across `s` stays unique after filtering. */
  lemma {:induction false} FilterKeepsDistinct<T(!new), K>(p: T -> bool, key: T -> K, s: seq<T>)
    requires DistinctBy(key, s)
    ensures DistinctBy(key, Filter(p, s))
  {
    if s != [] {
      var tail := s[1..];
      DistinctSplit(key, s);
      FilterKeepsDistinct(p, key, tail);
      var rest := Filter(p, tail);
      if p(s[0]) {
        var r := [s[0]] + rest;
        forall i, j | 0 <= i < j < |r| ensures key(r[i]) != key(r[j]) {
          if i == 0 {
            assert r[j] == rest[j - 1] && rest[j - 1] in tail;
          } else {
            assert r[i] == rest[i - 1] && r[j] == rest[j - 1];
          }
        }
      }
    }
  }

  /** Appending an element whose key is new keeps the key unique. */
  lemma AppendKeepsDistinct<T, K>(key: T -> K, s: seq<T>, x: T)
    requires DistinctBy(key, s)
    requires forall y :: y in s ==> key(y) != key(x)
    ensures DistinctBy(key, s + [x])
  {
  }
}
