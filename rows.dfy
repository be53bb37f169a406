/**
 * The order in which a query returns the rows of a table. The tables are keyed
 * by an auto-increment id. A query without `OrderBy` has no order the program
 * fixes; the model lists such rows in ascending key order.
 */
module Rows {

  /** A `DateTime` column: `DateTime.UtcNow` as an opaque tick count supplied by the caller. */
  type Timestamp = int

  ghost predicate Increasing(rows: seq<int>) {
    forall i, j :: 0 <= i < j < |rows| ==> rows[i] < rows[j]
  }

  ghost predicate NoDuplicates<T>(s: seq<T>) {
    forall i, j :: 0 <= i < j < |s| ==> s[i] != s[j]
  }

  /** LINQ `Where` over the rows: keeps exactly the ids that satisfy `p`, in their order. */
  function Where(rows: seq<int>, p: int -> bool): (r: seq<int>)
    ensures forall x :: x in r <==> x in rows && p(x)
    ensures Increasing(rows) ==> Increasing(r)
  {
    if rows == [] then []
    else
      var tail := Where(rows[1..], p);
      var r := (if p(rows[0]) then [rows[0]] else []) + tail;
      assert Increasing(rows) ==> Increasing(r) by {
        if Increasing(rows) {
          assert Increasing(rows[1..]);
          forall x | x in tail ensures rows[0] < x {
            var k :| 0 <= k < |rows[1..]| && rows[1..][k] == x;
            assert rows[k + 1] == x;
          }
          forall i, j | 0 <= i < j < |r| ensures r[i] < r[j] {
            assert r[j] in tail;
          }
        }
      }
      r
  }

  /** The rows once `x` is deleted. */
  function Without(rows: seq<int>, x: int): (r: seq<int>)
    ensures forall y :: y in r <==> y in rows && y != x
    ensures Increasing(rows) ==> Increasing(r)
  {
    Where(rows, y => y != x)
  }

  /** A sequence without repetitions has as many elements as its set of elements. */
  lemma {:induction false} DistinctCardinality<T>(s: seq<T>)
    requires NoDuplicates(s)
    ensures |set x | x in s| == |s|
  {
    if s != [] {
      DistinctCardinality(s[1..]);
      assert (set x | x in s) == (set x | x in s[1..]) + {s[0]};
      assert s[0] !in s[1..] by {
        forall k | 0 <= k < |s[1..]| ensures s[1..][k] != s[0] { assert s[1..][k] == s[k + 1]; }
      }
    }
  }

  /** Appending a key above every stored key keeps the rows in key order and adds just that key. */
  lemma AppendKeepsRows(rows: seq<int>, keys: set<int>, id: int)
    requires Increasing(rows)
    requires forall x :: x in rows <==> x in keys
    requires forall x :: x in keys ==> x < id
    ensures Increasing(rows + [id])
    ensures forall x :: x in rows + [id] <==> x in keys + {id}
  {
    forall k | 0 <= k < |rows| ensures rows[k] < id {
      assert rows[k] in rows;
    }
  }

  /** A table stored in key order has one row per key. */
  lemma RowsCount(rows: seq<int>, keys: set<int>)
    requires Increasing(rows)
    requires forall x :: x in rows <==> x in keys
    ensures |rows| == |keys|
  {
    DistinctCardinality(rows);
    assert (set x | x in rows) == keys;
  }

  lemma NoDuplicatesConcat<T>(a: seq<T>, b: seq<T>)
    requires NoDuplicates(a) && NoDuplicates(b)
    requires forall x :: x in a ==> x !in b
    ensures NoDuplicates(a + b)
  {
    forall i, j | 0 <= i < j < |a + b| ensures (a + b)[i] != (a + b)[j] {
      if i < |a| && j >= |a| {
        assert (a + b)[i] in a && (a + b)[j] in b;
      }
    }
  }

  lemma {:induction false} DistinctCountsOnce<T>(s: seq<T>, x: T)
    requires NoDuplicates(s) && x in s
    ensures multiset(s)[x] == 1
  {
    assert s == [s[0]] + s[1..];
    if s[0] == x {
      assert x !in s[1..] by {
        forall k | 0 <= k < |s| - 1 ensures s[1..][k] != x { assert s[1..][k] == s[k + 1]; }
      }
    } else {
      DistinctCountsOnce(s[1..], x);
    }
  }

  /** Reordering part of a sequence without repetitions leaves it without repetitions. */
  lemma PermutationKeepsDistinct<T>(a: seq<T>, b: seq<T>)
    requires multiset(b) <= multiset(a) && NoDuplicates(a)
    ensures NoDuplicates(b)
  {
    forall i, j | 0 <= i < j < |b| ensures b[i] != b[j] {
      if b[i] == b[j] {
        var x := b[i];
        assert b == b[..i] + [x] + b[i + 1..j] + [x] + b[j + 1..];
        assert multiset(b)[x] >= 2;
        assert x in multiset(a);
        DistinctCountsOnce(a, x);
        assert false;
      }
    }
  }
}
