/**
 * Selecting the rows of a relation by the value of a key column, and summing a
 * column. Shared by deduplication, grouping and the date filter of the extract.
 */
module Keyed {

  /** The rows whose key is `k`, in their original order. */
  function WithKey<R(!new), K(==)>(rows: seq<R>, key: R -> K, k: K): (r: seq<R>)
    ensures |r| <= |rows|
    ensures forall x :: x in r <==> x in rows && key(x) == k
  {
    if rows == [] then []
    else if key(rows[0]) == k then [rows[0]] + WithKey(rows[1..], key, k)
    else WithKey(rows[1..], key, k)
  }

  /** The rows whose key is not `k`, in their original order. */
  function WithoutKey<R(!new), K(==)>(rows: seq<R>, key: R -> K, k: K): (r: seq<R>)
    ensures |r| <= |rows|
    ensures forall x :: x in r <==> x in rows && key(x) != k
  {
    if rows == [] then []
    else if key(rows[0]) == k then WithoutKey(rows[1..], key, k)
    else [rows[0]] + WithoutKey(rows[1..], key, k)
  }

  /** No two rows share a key. */
  predicate DistinctKeys<R, K(==)>(rows: seq<R>, key: R -> K)
  {
    forall i, j :: 0 <= i < j < |rows| ==> key(rows[i]) != key(rows[j])
  }

  /** The sum of column `f` over `rows`. */
  function Sum<R>(rows: seq<R>, f: R -> int): int
  {
    if rows == [] then 0 else f(rows[0]) + Sum(rows[1..], f)
  }

  /** Summing a column is the same as summing it inside and outside one key. */
  lemma {:induction false} SumSplit<R(!new), K>(rows: seq<R>, key: R -> K, f: R -> int, k: K)
    ensures Sum(rows, f) == Sum(WithKey(rows, key, k), f) + Sum(WithoutKey(rows, key, k), f)
  {
    if rows != [] {
      SumSplit(rows[1..], key, f, k);
      if key(rows[0]) == k {
        assert ([rows[0]] + WithKey(rows[1..], key, k))[1..] == WithKey(rows[1..], key, k);
      } else {
        assert ([rows[0]] + WithoutKey(rows[1..], key, k))[1..] == WithoutKey(rows[1..], key, k);
      }
    }
  }

  /** Removing one key does not change the rows of any other key. */
  lemma {:induction false} WithKeyAfterWithoutKey<R(!new), K>(rows: seq<R>, key: R -> K, k: K, k': K)
    requires k != k'
    ensures WithKey(WithoutKey(rows, key, k), key, k') == WithKey(rows, key, k')
  {
    if rows != [] {
      WithKeyAfterWithoutKey(rows[1..], key, k, k');
      if key(rows[0]) != k {
        assert ([rows[0]] + WithoutKey(rows[1..], key, k))[1..] == WithoutKey(rows[1..], key, k);
      }
    }
  }

  /** With distinct keys, a key selects at most one row, and exactly one when it occurs. */
  lemma {:induction false} DistinctKeysSelectOne<R(!new), K>(rows: seq<R>, key: R -> K, k: K)
    requires DistinctKeys(rows, key)
    ensures |WithKey(rows, key, k)| == if exists x :: x in rows && key(x) == k then 1 else 0
  {
    if rows != [] {
      assert DistinctKeys(rows[1..], key) by {
        forall i, j | 0 <= i < j < |rows[1..]| ensures key(rows[1..][i]) != key(rows[1..][j]) {
          assert rows[1..][i] == rows[i + 1] && rows[1..][j] == rows[j + 1];
        }
      }
      DistinctKeysSelectOne(rows[1..], key, k);
      if key(rows[0]) == k {
        forall x | x in rows[1..] ensures key(x) != k {
          var j :| 1 <= j < |rows| && rows[j] == x;
        }
      } else {
        forall x | x in rows && key(x) == k ensures x in rows[1..] {
        }
      }
    }
  }

  /** When no row has key `k`, selecting `k` gives nothing and removing it changes nothing. */
  lemma {:induction false} AbsentKey<R(!new), K>(rows: seq<R>, key: R -> K, k: K)
    requires forall x :: x in rows ==> key(x) != k
    ensures WithKey(rows, key, k) == []
    ensures WithoutKey(rows, key, k) == rows
  {
    if rows != [] {
      AbsentKey(rows[1..], key, k);
      assert [rows[0]] + rows[1..] == rows;
    }
  }

  /** When every row has key `k`, selecting `k` keeps every row. */
  lemma {:induction false} EveryKey<R(!new), K>(rows: seq<R>, key: R -> K, k: K)
    requires forall x :: x in rows ==> key(x) == k
    ensures WithKey(rows, key, k) == rows
  {
    if rows != [] {
      EveryKey(rows[1..], key, k);
      assert [rows[0]] + rows[1..] == rows;
    }
  }

  /** Selecting by key distributes over concatenation. */
  lemma {:induction false} WithKeyAppend<R(!new), K>(a: seq<R>, b: seq<R>, key: R -> K, k: K)
    ensures WithKey(a + b, key, k) == WithKey(a, key, k) + WithKey(b, key, k)
  {
    if a != [] {
      assert (a + b)[1..] == a[1..] + b;
      WithKeyAppend(a[1..], b, key, k);
    } else {
      assert a + b == b;
    }
  }

  /** Two relations that agree row by row on the summed column have the same sum. */
  lemma {:induction false} SumPointwise<A, B>(s: seq<A>, f: A -> int, t: seq<B>, g: B -> int)
    requires |s| == |t|
    requires forall i :: 0 <= i < |s| ==> f(s[i]) == g(t[i])
    ensures Sum(s, f) == Sum(t, g)
  {
    if s != [] {
      SumPointwise(s[1..], f, t[1..], g);
    }
  }
}
