/**
 * The merge `getGlobalObjs` performs: each of the learner's global
 * objective rows is appended to the caller's vector unless its objective
 * ID was found in the vector, under a `foundObjective` flag that is set
 * once and never cleared, and a `firstQueryEmpty` flag that stays true
 * only while the vector is empty when a row is examined.
 */
module GlobalObjectives {
  import opened Records

  /** The vector and the two loop-carried flags. */
  datatype MergeState = MergeState(objs: seq<ObjectivesData>, found: bool, firstQueryEmpty: bool)

  predicate HasObjectiveID(objs: seq<ObjectivesData>, id: string)
  {
    exists i :: 0 <= i < |objs| && objs[i].objectiveID == id
  }

  /**
   * One row: scanning a non-empty vector clears `firstQueryEmpty`, a match
   * sets `found`, and the row is appended when `firstQueryEmpty` still holds
   * or nothing was ever found.
   */
  function MergeStep(st: MergeState, od: ObjectivesData): MergeState
  {
    var fqe := st.firstQueryEmpty && |st.objs| == 0;
    var found := st.found || HasObjectiveID(st.objs, od.objectiveID);
    MergeState(if fqe || !found then st.objs + [od] else st.objs, found, fqe)
  }

  function MergeFrom(st: MergeState, rows: seq<ObjectivesData>): MergeState
  {
    if |rows| == 0 then st else MergeStep(MergeFrom(st, rows[..|rows| - 1]), rows[|rows| - 1])
  }

  /** The vector `getGlobalObjs` returns for the caller's `existing` vector and the learner's global rows. */
  function GlobalMerge(existing: seq<ObjectivesData>, rows: seq<ObjectivesData>): seq<ObjectivesData>
  {
    MergeFrom(MergeState(existing, false, true), rows).objs
  }

  /**
   * The vector only grows: the caller's elements stay as a prefix and every
   * appended element is one of the rows; and the flag `found` is never set
   * while `firstQueryEmpty` holds.
   */
  lemma {:induction false} MergeFromGrows(st: MergeState, rows: seq<ObjectivesData>)
    requires st.found ==> !st.firstQueryEmpty
    ensures var r := MergeFrom(st, rows);
      && |st.objs| <= |r.objs| <= |st.objs| + |rows|
      && r.objs[..|st.objs|] == st.objs
      && (forall k :: |st.objs| <= k < |r.objs| ==> r.objs[k] in rows)
      && (r.found ==> !r.firstQueryEmpty)
      && (st.found ==> r.found)
  {
    if |rows| > 0 {
      var front := rows[..|rows| - 1];
      MergeFromGrows(st, front);
      var p := MergeFrom(st, front);
      var r := MergeStep(p, rows[|rows| - 1]);
      assert r.objs[..|p.objs|] == p.objs;
      assert r.objs[..|st.objs|] == p.objs[..|st.objs|];
      forall k | |st.objs| <= k < |r.objs| ensures r.objs[k] in rows {
        if k < |p.objs| {
          assert p.objs[k] in front;
        }
      }
    }
  }

  /** `getGlobalObjs` only appends: the caller's vector is a prefix of the result and the rest comes from the rows. */
  lemma MergeKeepsPrefix(existing: seq<ObjectivesData>, rows: seq<ObjectivesData>)
    ensures var r := GlobalMerge(existing, rows);
      && |existing| <= |r| <= |existing| + |rows|
      && r[..|existing|] == existing
      && forall k :: |existing| <= k < |r| ==> r[k] in rows
  {
    MergeFromGrows(MergeState(existing, false, true), rows);
  }

  /** Into an empty vector, the first global row is always appended. */
  lemma MergeFirstIntoEmpty(rows: seq<ObjectivesData>)
    requires |rows| > 0
    ensures var r := GlobalMerge([], rows); |r| > 0 && r[0] == rows[0]
  {
    var init := MergeState([], false, true);
    assert MergeFrom(init, rows[..1]) == MergeStep(init, rows[0]) by {
      assert rows[..1][..0] == [];
    }
    MergeFromGrows(MergeStep(init, rows[0]), rows[1..]);
    MergeFromSplit(init, rows[..1], rows[1..]);
    assert rows[..1] + rows[1..] == rows;
  }

  lemma {:induction false} MergeFromSplit(st: MergeState, a: seq<ObjectivesData>, b: seq<ObjectivesData>)
    ensures MergeFrom(st, a + b) == MergeFrom(MergeFrom(st, a), b)
  {
    if |b| > 0 {
      MergeFromSplit(st, a, b[..|b| - 1]);
      assert (a + b)[..|a + b| - 1] == a + b[..|b| - 1];
    } else {
      assert a + b == a;
    }
  }

  /** Once `found` is set (over a non-empty vector), no later row is appended. */
  lemma {:induction false} MergeFromFound(st: MergeState, rows: seq<ObjectivesData>)
    requires st.found && !st.firstQueryEmpty
    ensures MergeFrom(st, rows) == st
  {
    if |rows| > 0 {
      MergeFromFound(st, rows[..|rows| - 1]);
    }
  }

  /**
   * The sticky flag: as soon as one row's objective ID is already in the
   * vector, that row and every later row are left out, whatever their IDs.
   */
  lemma MergeSticky(existing: seq<ObjectivesData>, rows: seq<ObjectivesData>, k: nat)
    requires k < |rows|
    requires HasObjectiveID(MergeFrom(MergeState(existing, false, true), rows[..k]).objs, rows[k].objectiveID)
    ensures GlobalMerge(existing, rows) == MergeFrom(MergeState(existing, false, true), rows[..k]).objs
  {
    var init := MergeState(existing, false, true);
    var p := MergeFrom(init, rows[..k]);
    MergeFromGrows(init, rows[..k]);
    var q := MergeStep(p, rows[k]);
    assert q == MergeState(p.objs, true, false);
    assert MergeFrom(init, rows[..k + 1]) == q by {
      assert rows[..k + 1][..k] == rows[..k];
    }
    MergeFromFound(q, rows[k + 1..]);
    MergeFromSplit(init, rows[..k + 1], rows[k + 1..]);
    assert rows[..k + 1] + rows[k + 1..] == rows;
  }

  /**
   * Merging the same rows a second time adds nothing: after the first merge
   * the first row's objective ID is in the (non-empty) vector, so the
   * sticky flag is set on the first row of the second merge.
   */
  lemma MergeIdempotent(existing: seq<ObjectivesData>, rows: seq<ObjectivesData>)
    ensures GlobalMerge(GlobalMerge(existing, rows), rows) == GlobalMerge(existing, rows)
  {
    var r := GlobalMerge(existing, rows);
    if |rows| > 0 {
      var init := MergeState(existing, false, true);
      var p1 := MergeStep(init, rows[0]);
      assert MergeFrom(init, rows[..1]) == p1 by {
        assert rows[..1][..0] == [];
      }
      assert HasObjectiveID(p1.objs, rows[0].objectiveID) by {
        if p1.objs != existing {
          assert p1.objs[|existing|] == rows[0];
        } else {
          var i :| 0 <= i < |existing| && existing[i].objectiveID == rows[0].objectiveID;
          assert p1.objs[i] == existing[i];
        }
      }
      MergeFromGrows(p1, rows[1..]);
      MergeFromSplit(init, rows[..1], rows[1..]);
      assert rows[..1] + rows[1..] == rows;
      assert r[..|p1.objs|] == p1.objs;
      assert HasObjectiveID(r, rows[0].objectiveID) by {
        var i :| 0 <= i < |p1.objs| && p1.objs[i].objectiveID == rows[0].objectiveID;
        assert r[i] == p1.objs[i];
      }
      var again := MergeState(r, false, true);
      var q := MergeStep(again, rows[0]);
      assert q == MergeState(r, true, false);
      assert MergeFrom(again, rows[..1]) == q by {
        assert rows[..1][..0] == [];
      }
      MergeFromFound(q, rows[1..]);
      MergeFromSplit(again, rows[..1], rows[1..]);
    }
  }

  /** Objective IDs that appear neither in the vector nor twice among the rows. */
  predicate AllNew(existing: seq<ObjectivesData>, rows: seq<ObjectivesData>)
  {
    && (forall i, j :: 0 <= i < |existing| && 0 <= j < |rows| ==> existing[i].objectiveID != rows[j].objectiveID)
    && (forall i, j :: 0 <= i < j < |rows| ==> rows[i].objectiveID != rows[j].objectiveID)
  }

  /** When every row's objective ID is new, every row is appended, in order. */
  lemma {:induction false} MergeAllNew(existing: seq<ObjectivesData>, rows: seq<ObjectivesData>)
    requires AllNew(existing, rows)
    ensures MergeFrom(MergeState(existing, false, true), rows).objs == existing + rows
    ensures !MergeFrom(MergeState(existing, false, true), rows).found
  {
    if |rows| > 0 {
      var front := rows[..|rows| - 1];
      var last := rows[|rows| - 1];
      MergeAllNew(existing, front);
      var p := MergeFrom(MergeState(existing, false, true), front);
      assert !HasObjectiveID(p.objs, last.objectiveID) by {
        forall i | 0 <= i < |p.objs| ensures p.objs[i].objectiveID != last.objectiveID {
          if i >= |existing| {
            assert p.objs[i] == rows[i - |existing|];
          }
        }
      }
      assert existing + front + [last] == existing + rows;
    }
  }

  /**
   * A concrete case of the sticky flag: with `a` already in the vector, a
   * row repeating `a`'s ID followed by a row `b` with a new ID leaves `b` out.
   */
  lemma StickyDropsNewObjective(a: ObjectivesData, b: ObjectivesData)
    requires a.objectiveID != b.objectiveID
    ensures GlobalMerge([a], [a, b]) == [a]
  {
    var init := MergeState([a], false, true);
    assert [a][0].objectiveID == a.objectiveID;
    assert HasObjectiveID([a], a.objectiveID);
    assert [a, b][..1] == [a];
    assert [a, b][..1][..0] == [];
    assert MergeFrom(init, [a]) == MergeState([a], true, false);
  }
}
