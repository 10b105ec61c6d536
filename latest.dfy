/**
 * Deduplicate-by-latest: of all versions of a record, keep the one with the
 * greatest version column. The source ranks each key's rows by the version
 * column, descending, with row_number and keeps rank 1.
 */
module Latest {
  import opened Keyed

  /**
   * A row of `rows` with the greatest `order`. Of several such rows the first
   * is taken: the engine leaves ties open, and every maximal row is the first
   * one in some order of the input.
   */
  function PickLatest<R(!new)>(rows: seq<R>, order: R -> int): (r: R)
    requires rows != []
    ensures r in rows
    ensures forall x :: x in rows ==> order(x) <= order(r)
  {
    if |rows| == 1 then rows[0]
    else
      var rest := PickLatest(rows[1..], order);
      if order(rows[0]) >= order(rest) then rows[0] else rest
  }

  /** Ties: a maximal row that comes first is the one kept, so each maximal
      row is kept under some order of the input. */
  lemma PickLatestFirstMaximal<R(!new)>(x: R, rows: seq<R>, order: R -> int)
    requires forall y :: y in rows ==> order(y) <= order(x)
    ensures PickLatest([x] + rows, order) == x
  {
  }

  /**
   * One row per key: the latest version of that key. Rows come out in the
   * order in which their keys first occur.
   */
  function LatestRecords<R(!new), K(==)>(rows: seq<R>, key: R -> K, order: R -> int): (out: seq<R>)
    ensures |out| <= |rows|
    decreases |rows|
  {
    if rows == [] then []
    else
      var k := key(rows[0]);
      var rest := WithoutKey(rows, key, k);
      assert rest == WithoutKey(rows[1..], key, k);
      [PickLatest(WithKey(rows, key, k), order)] + LatestRecords(rest, key, order)
  }

  /** The output rows of deduplication are input rows, and each has the key of its group. */
  lemma {:induction false} LatestRecordsFromInput<R(!new), K>(rows: seq<R>, key: R -> K, order: R -> int)
    ensures forall y :: y in LatestRecords(rows, key, order) ==> y in rows
    decreases |rows|
  {
    if rows != [] {
      var k := key(rows[0]);
      var rest := WithoutKey(rows, key, k);
      assert rest == WithoutKey(rows[1..], key, k);
      var group := WithKey(rows, key, k);
      assert rows[0] in group;
      LatestRecordsFromInput(rest, key, order);
    }
  }

  /** Deduplication leaves no key twice. */
  lemma {:induction false} LatestRecordsDistinct<R(!new), K>(rows: seq<R>, key: R -> K, order: R -> int)
    ensures DistinctKeys(LatestRecords(rows, key, order), key)
    decreases |rows|
  {
    if rows != [] {
      var k := key(rows[0]);
      var rest := WithoutKey(rows, key, k);
      assert rest == WithoutKey(rows[1..], key, k);
      var group := WithKey(rows, key, k);
      assert rows[0] in group;
      var p := PickLatest(group, order);
      var tail := LatestRecords(rest, key, order);
      var out := LatestRecords(rows, key, order);
      assert out == [p] + tail;
      LatestRecordsDistinct(rest, key, order);
      LatestRecordsFromInput(rest, key, order);
      forall i, j | 0 <= i < j < |out| ensures key(out[i]) != key(out[j]) {
        assert out[j] == tail[j - 1];
        assert out[j] in rest;
        if i > 0 {
          assert out[i] == tail[i - 1];
        }
      }
    }
  }

  /**
   * Every input key is kept, by a row whose version is the greatest among that
   * key's input rows.
   */
  lemma {:induction false} LatestRecordsKeepsEveryKey<R(!new), K>(rows: seq<R>, key: R -> K, order: R -> int, x: R)
    requires x in rows
    ensures exists y :: y in LatestRecords(rows, key, order) && key(y) == key(x)
    ensures forall y :: y in LatestRecords(rows, key, order) && key(y) == key(x) ==> order(x) <= order(y)
    decreases |rows|
  {
    var k := key(rows[0]);
    var rest := WithoutKey(rows, key, k);
    assert rest == WithoutKey(rows[1..], key, k);
    var group := WithKey(rows, key, k);
    assert rows[0] in group;
    var p := PickLatest(group, order);
    var tail := LatestRecords(rest, key, order);
    var out := LatestRecords(rows, key, order);
    assert out == [p] + tail;
    LatestRecordsFromInput(rest, key, order);
    if key(x) == k {
      assert x in group;
      assert p in out;
      forall y | y in out && key(y) == key(x) ensures order(x) <= order(y) {
        assert y == p || y in tail;
      }
    } else {
      assert x in rest;
      LatestRecordsKeepsEveryKey(rest, key, order, x);
      var y :| y in tail && key(y) == key(x);
      assert y in out;
      forall y' | y' in out && key(y') == key(x) ensures order(x) <= order(y') {
        assert y' == p || y' in tail;
      }
    }
  }

  /**
   * Every key of the input occurs exactly once in the output, and no other key
   * occurs at all.
   */
  lemma {:induction false} LatestRecordsExactlyOnce<R(!new), K>(rows: seq<R>, key: R -> K, order: R -> int, k: K)
    ensures |WithKey(LatestRecords(rows, key, order), key, k)| ==
            if exists x :: x in rows && key(x) == k then 1 else 0
  {
    var out := LatestRecords(rows, key, order);
    LatestRecordsDistinct(rows, key, order);
    LatestRecordsFromInput(rows, key, order);
    DistinctKeysSelectOne(out, key, k);
    if exists x :: x in rows && key(x) == k {
      var x :| x in rows && key(x) == k;
      LatestRecordsKeepsEveryKey(rows, key, order, x);
    }
  }

  /** A relation whose keys are already unique is its own deduplication. */
  lemma {:induction false} LatestRecordsOfDistinct<R(!new), K>(rows: seq<R>, key: R -> K, order: R -> int)
    requires DistinctKeys(rows, key)
    ensures LatestRecords(rows, key, order) == rows
    decreases |rows|
  {
    if rows != [] {
      var k := key(rows[0]);
      forall x | x in rows[1..] ensures key(x) != k {
        var j :| 0 <= j < |rows[1..]| && rows[1..][j] == x;
        assert rows[1..][j] == rows[j + 1];
      }
      AbsentKey(rows[1..], key, k);
      assert WithKey(rows, key, k) == [rows[0]];
      assert WithoutKey(rows, key, k) == rows[1..];
      assert DistinctKeys(rows[1..], key) by {
        forall i, j | 0 <= i < j < |rows[1..]| ensures key(rows[1..][i]) != key(rows[1..][j]) {
          assert rows[1..][i] == rows[i + 1] && rows[1..][j] == rows[j + 1];
        }
      }
      LatestRecordsOfDistinct(rows[1..], key, order);
      assert [rows[0]] + rows[1..] == rows;
    }
  }

  /** Deduplicating twice is deduplicating once. */
  lemma LatestRecordsIdempotent<R(!new), K>(rows: seq<R>, key: R -> K, order: R -> int)
    ensures LatestRecords(LatestRecords(rows, key, order), key, order) == LatestRecords(rows, key, order)
  {
    LatestRecordsDistinct(rows, key, order);
    LatestRecordsOfDistinct(LatestRecords(rows, key, order), key, order);
  }
}
