/**
 * Ordering and truncation of query results: LINQ's `OrderBy`/`ThenBy` and `Take`.
 * An ordering is given as a "sorts no later than" relation.
 */
module Sorting {

  ghost predicate TotalPreorder<T(!new)>(le: (T, T) -> bool) {
    && (forall a, b :: le(a, b) || le(b, a))
    && (forall a, b, c :: le(a, b) && le(b, c) ==> le(a, c))
  }

  ghost predicate SortedBy<T>(s: seq<T>, le: (T, T) -> bool) {
    forall i, j :: 0 <= i < j < |s| ==> le(s[i], s[j])
  }

  /** Puts `x` into the sorted sequence `s` in front of the first element it sorts no later than. */
  function Insert<T(!new)>(x: T, s: seq<T>, le: (T, T) -> bool): (r: seq<T>)
    requires TotalPreorder(le) && SortedBy(s, le)
    ensures multiset(r) == multiset(s) + multiset{x}
    ensures SortedBy(r, le)
  {
    if s == [] then [x]
    else if le(x, s[0]) then [x] + s
    else
      var t := Insert(x, s[1..], le);
      assert s == [s[0]] + s[1..];
      BoundKept(x, s[1..], t, s[0], le);
      [s[0]] + t
  }

  /** A lower bound of `x` and of every element of `s` bounds every element of a permutation of both. */
  lemma BoundKept<T>(x: T, s: seq<T>, t: seq<T>, lo: T, le: (T, T) -> bool)
    requires multiset(t) == multiset(s) + multiset{x}
    requires le(lo, x) && forall k :: 0 <= k < |s| ==> le(lo, s[k])
    ensures forall k :: 0 <= k < |t| ==> le(lo, t[k])
  {
    forall k | 0 <= k < |t| ensures le(lo, t[k]) {
      assert t[k] in multiset(t);
      if t[k] != x {
        assert t[k] in multiset(s);
        var j :| 0 <= j < |s| && s[j] == t[k];
      }
    }
  }

  /** Sorts `s` by `le`: the result is sorted and is a permutation of `s`. */
  function SortBy<T(!new)>(s: seq<T>, le: (T, T) -> bool): (r: seq<T>)
    requires TotalPreorder(le)
    ensures multiset(r) == multiset(s)
    ensures SortedBy(r, le)
  {
    if s == [] then []
    else
      assert s == [s[0]] + s[1..];
      Insert(s[0], SortBy(s[1..], le), le)
  }

  /** Sorting a sequence inserts its head into the sorted tail. */
  lemma SortByCons<T(!new)>(x: T, s: seq<T>, le: (T, T) -> bool)
    requires TotalPreorder(le)
    ensures SortBy([x] + s, le) == Insert(x, SortBy(s, le), le)
  {
    assert ([x] + s)[0] == x && ([x] + s)[1..] == s;
  }

  /** LINQ's `Take(n)`: the first `n` elements, all of them when there are fewer, none when `n <= 0`. */
  function Take<T>(s: seq<T>, n: int): (r: seq<T>)
    ensures |r| == if n <= 0 then 0 else if n < |s| then n else |s|
    ensures r == s[..|r|]
  {
    if n <= 0 then [] else if n < |s| then s[..n] else s
  }

  /**
   * A prefix of a sorted sequence is sorted, is part of the sequence, and holds
   * elements that sort no later than everything left out.
   */
  lemma TakeOfSorted<T(!new)>(s: seq<T>, le: (T, T) -> bool, n: int)
    requires SortedBy(s, le)
    ensures SortedBy(Take(s, n), le)
    ensures multiset(Take(s, n)) <= multiset(s)
    ensures forall y :: y in s && y !in Take(s, n) ==> forall x :: x in Take(s, n) ==> le(x, y)
  {
    var t := Take(s, n);
    assert s == t + s[|t|..];
    assert forall i :: 0 <= i < |t| ==> t[i] == s[i];
    forall y, x | y in s && y !in t && x in t ensures le(x, y) {
      var j :| 0 <= j < |s| && s[j] == y;
      var i :| 0 <= i < |t| && t[i] == x;
      assert s[i] == x;
    }
  }
}
