/**
 * The load step: an append-only table of GMV snapshots in which, for each
 * (gmv_date, subsidiary), the most recent calculation is flagged is_latest.
 * Loading a new snapshot first supersedes the latest rows of the keys it
 * recalculates (a MERGE that sets is_latest = false) and then appends it.
 */
module Load {
  import opened Wrappers
  import opened Records
  import opened Keyed

  /** SQL `=` on a nullable string: NULL equals nothing, not even NULL. */
  function SqlEquals(a: Option<string>, b: Option<string>): (r: bool)
    ensures r <==> a.Some? && a == b
  {
    a.Some? && b.Some? && a.value == b.value
  }

  /** The merge condition: target.gmv_date = source.gmv_date AND
      target.subsidiary = source.subsidiary AND target.is_latest = true. */
  predicate MergeMatches(target: GmvRow, source: GmvRow)
  {
    target.gmvDate == source.gmvDate && SqlEquals(target.subsidiary, source.subsidiary) && target.isLatest
  }

  /** How many input rows match a target row under the merge condition. */
  function MatchCount(target: GmvRow, input: seq<GmvRow>): (n: nat)
    ensures n == 0 <==> forall s :: s in input ==> !MergeMatches(target, s)
    ensures n <= |input|
  {
    if input == [] then 0
    else (if MergeMatches(target, input[0]) then 1 else 0) + MatchCount(target, input[1..])
  }

  /** The table engine refuses a merge in which two input rows match the same
      target row; nothing is written then. */
  predicate MergeConflict(rows: seq<GmvRow>, input: seq<GmvRow>)
  {
    exists i :: 0 <= i < |rows| && MatchCount(rows[i], input) > 1
  }

  /** One target row after whenMatchedUpdate(is_latest = false): only the
      flag may change, from true to false, and it does exactly when some
      input row satisfies the merge condition. */
  function Supersede(target: GmvRow, input: seq<GmvRow>): (r: GmvRow)
    ensures r.(isLatest := target.isLatest) == target
    ensures r.isLatest <==> target.isLatest && forall s :: s in input ==> !MergeMatches(target, s)
  {
    if MatchCount(target, input) > 0 then target.(isLatest := false) else target
  }

  /** All target rows after the merge: the same rows, in the same order, each
      superseded or not on its own. */
  function SupersedeAll(rows: seq<GmvRow>, input: seq<GmvRow>): (r: seq<GmvRow>)
    ensures |r| == |rows|
    ensures forall i :: 0 <= i < |rows| ==> r[i].(isLatest := rows[i].isLatest) == rows[i]
    ensures forall i :: 0 <= i < |rows| ==> r[i].isLatest ==> rows[i].isLatest
  {
    seq(|rows|, i requires 0 <= i < |rows| => Supersede(rows[i], input))
  }

  /** For each present (gmv_date, subsidiary), at most one row is flagged latest. */
  predicate AtMostOneLatest(rows: seq<GmvRow>)
  {
    forall i, j ::
      (0 <= i < j < |rows| && rows[i].isLatest && rows[j].isLatest && GmvKey(rows[i]) == GmvKey(rows[j]))
      ==> rows[i].subsidiary.None?
  }

  /** The merge changes nothing but is_latest, only from true to false, and
      exactly on the latest rows whose key equals, under SQL equality, the key
      of some input row. */
  lemma SupersedeAllChangesOnlyTheFlag(rows: seq<GmvRow>, input: seq<GmvRow>)
    ensures |SupersedeAll(rows, input)| == |rows|
    ensures forall i :: 0 <= i < |rows| ==>
      var r, r' := rows[i], SupersedeAll(rows, input)[i];
      && r'.gmvDate == r.gmvDate
      && r'.subsidiary == r.subsidiary
      && r'.gmvTotalDay == r.gmvTotalDay
      && r'.calculationTimestamp == r.calculationTimestamp
      && (r'.isLatest ==> r.isLatest)
      && (r'.isLatest != r.isLatest <==>
            r.isLatest && r.subsidiary.Some? &&
            exists s :: s in input && GmvKey(s) == GmvKey(r))
  {
  }

  /** An input row with distinct keys matches any target row at most once. */
  lemma {:induction false} MatchCountAtMostOne(target: GmvRow, input: seq<GmvRow>)
    requires DistinctKeys(input, GmvKey)
    ensures MatchCount(target, input) <= 1
  {
    if input != [] {
      assert DistinctKeys(input[1..], GmvKey) by {
        forall i, j | 0 <= i < j < |input[1..]| ensures GmvKey(input[1..][i]) != GmvKey(input[1..][j]) {
          assert input[1..][i] == input[i + 1] && input[1..][j] == input[j + 1];
        }
      }
      MatchCountAtMostOne(target, input[1..]);
      if MergeMatches(target, input[0]) {
        forall s | s in input[1..] ensures !MergeMatches(target, s) {
          var j :| 1 <= j < |input| && input[j] == s;
          assert GmvKey(input[0]) != GmvKey(input[j]);
        }
      }
    }
  }

  /** An input with distinct keys never makes the merge fail. */
  lemma DistinctInputNeverConflicts(rows: seq<GmvRow>, input: seq<GmvRow>)
    requires DistinctKeys(input, GmvKey)
    ensures !MergeConflict(rows, input)
  {
    forall i | 0 <= i < |rows| ensures MatchCount(rows[i], input) <= 1 {
      MatchCountAtMostOne(rows[i], input);
    }
  }

  /** Superseding and then appending an input with distinct keys keeps at most
      one latest row per present key. */
  lemma MergePreservesAtMostOneLatest(rows: seq<GmvRow>, input: seq<GmvRow>)
    requires AtMostOneLatest(rows)
    requires DistinctKeys(input, GmvKey)
    ensures AtMostOneLatest(SupersedeAll(rows, input) + input)
  {
    var old' := SupersedeAll(rows, input);
    var all := old' + input;
    SupersedeAllChangesOnlyTheFlag(rows, input);
    forall i, j | 0 <= i < j < |all| && all[i].isLatest && all[j].isLatest && GmvKey(all[i]) == GmvKey(all[j])
      ensures all[i].subsidiary.None?
    {
      if j < |rows| {
        assert all[i] == old'[i] && all[j] == old'[j];
      } else if i < |rows| {
        assert all[i] == old'[i];
        assert all[j] == input[j - |rows|] && all[j] in input;
      }
    }
  }

  /** After a merge, each input row with a subsidiary is the only latest row of
      its key: the previous calculations of that key are all superseded. */
  lemma MergeLeavesInputLatest(rows: seq<GmvRow>, input: seq<GmvRow>, k: nat)
    requires DistinctKeys(input, GmvKey)
    requires k < |input| && input[k].isLatest && input[k].subsidiary.Some?
    ensures var all := SupersedeAll(rows, input) + input;
      forall i :: 0 <= i < |all| && all[i].isLatest && GmvKey(all[i]) == GmvKey(input[k]) ==> i == |rows| + k
  {
    var all := SupersedeAll(rows, input) + input;
    SupersedeAllChangesOnlyTheFlag(rows, input);
    forall i | 0 <= i < |all| && all[i].isLatest && GmvKey(all[i]) == GmvKey(input[k])
      ensures i == |rows| + k
    {
      if i >= |rows| {
        assert all[i] == input[i - |rows|];
      }
    }
  }

  /** A row with a NULL subsidiary is never superseded, since NULL = NULL is not
      true: loading a second calculation for (d, NULL) leaves two latest rows. */
  lemma NullSubsidiaryStaysLatest(d: Date, v1: Cents, v2: Cents, t1: Timestamp, t2: Timestamp)
    ensures var rows := [GmvRow(d, None, v1, t1, true)];
      var input := [GmvRow(d, None, v2, t2, true)];
      SupersedeAll(rows, input) + input == [GmvRow(d, None, v1, t1, true), GmvRow(d, None, v2, t2, true)]
  {
  }

  /** What a call of the load step did. */
  datatype LoadOutcome =
    | NothingToLoad   // the input was empty: nothing is written
    | Created         // the table did not exist and was created from the input
    | Merged          // previous latest rows were superseded and the input appended
    | MergeFailed     // the merge was refused: nothing is written

  /** The destination table silver.fct_gmv_diario. */
  class GmvTable {
    /** Whether the table exists. */
    var created: bool
    /** Its rows, in the order they were written. */
    var rows: seq<GmvRow>

    /** A table that does not exist has no rows. */
    ghost predicate Valid()
      reads this
    {
      created || rows == []
    }

    /** A table that does not exist yet. */
    constructor ()
      ensures Valid() && !created && rows == []
    {
      created := false;
      rows := [];
    }

    /** A table that already holds `existing`. */
    constructor Existing(existing: seq<GmvRow>)
      ensures Valid() && created && rows == existing
    {
      created := true;
      rows := existing;
    }

    /** The write that creates the table from the input. */
    method Create(input: seq<GmvRow>)
      requires !created
      modifies this
      ensures created && rows == input
    {
      created := true;
      rows := input;
    }

    /** The MERGE: every latest row whose key matches an input row gets
        is_latest = false; a conflict leaves the table as it was. */
    method SupersedeMatched(input: seq<GmvRow>) returns (ok: bool)
      requires created
      modifies this`rows
      ensures ok == !MergeConflict(old(rows), input)
      ensures rows == if ok then SupersedeAll(old(rows), input) else old(rows)
    {
      var updated: seq<GmvRow> := [];
      var i := 0;
      while i < |rows|
        invariant 0 <= i <= |rows|
        invariant rows == old(rows)
        invariant |updated| == i
        invariant forall k :: 0 <= k < i ==> updated[k] == Supersede(rows[k], input)
        invariant forall k :: 0 <= k < i ==> MatchCount(rows[k], input) <= 1
      {
        var n := MatchCount(rows[i], input);
        if n > 1 {
          return false;
        }
        updated := updated + [if n > 0 then rows[i].(isLatest := false) else rows[i]];
        i := i + 1;
      }
      rows := updated;
      ok := true;
    }

    /** The write that appends the input to the existing table. */
    method Append(input: seq<GmvRow>)
      requires created
      modifies this`rows
      ensures rows == old(rows) + input
    {
      rows := rows + input;
    }

    /** load_data_to_delta: nothing for an empty input, create a missing table,
        otherwise supersede the matched latest rows and append the input. */
    method Load(input: seq<GmvRow>) returns (outcome: LoadOutcome)
      requires Valid()
      modifies this
      ensures Valid()
      ensures input == [] ==> outcome == NothingToLoad && created == old(created) && rows == old(rows)
      ensures input != [] && !old(created) ==> outcome == Created && created && rows == input
      ensures input != [] && old(created) && MergeConflict(old(rows), input) ==>
                outcome == MergeFailed && created && rows == old(rows)
      ensures input != [] && old(created) && !MergeConflict(old(rows), input) ==>
                outcome == Merged && created && rows == SupersedeAll(old(rows), input) + input
      ensures AtMostOneLatest(old(rows)) && DistinctKeys(input, GmvKey) ==> AtMostOneLatest(rows)
    {
      if input == [] {
        return NothingToLoad;
      }
      if !created {
        Create(input);
        // The table was empty, so this is the merge of the input into no rows.
        assert old(rows) == [] && SupersedeAll(old(rows), input) + input == input;
        if DistinctKeys(input, GmvKey) {
          MergePreservesAtMostOneLatest(old(rows), input);
        }
        return Created;
      }
      var ok := SupersedeMatched(input);
      if !ok {
        return MergeFailed;
      }
      Append(input);
      if AtMostOneLatest(old(rows)) && DistinctKeys(input, GmvKey) {
        MergePreservesAtMostOneLatest(old(rows), input);
      }
      outcome := Merged;
    }
  }
}
