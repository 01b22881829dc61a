/**
 * The objective administration of the course service on the Objectives
 * table: adding a global objective (`addObj`), listing a course's
 * objectives (`getObjs`), and the reset/delete requests of the objectives
 * page (`editObjs`), whose form parameters are "n~objID;learner:action".
 */
module Objectives {
  import opened Records
  import opened JavaStrings

  // ---------------------------------------------------------------------
  // addObj

  /** The two free-text status values stored under their vocabulary token. */
  function NormaliseSatisfied(v: string): string
  {
    if v == "not satisfied" then "notSatisfied" else v
  }

  function NormaliseCompletion(v: string): string
  {
    if v == "not attempted" then "notAttempted" else v
  }

  /** A global row (scope "") with this encoded objective ID and learner exists. */
  predicate HasGlobalRow(rows: seq<Objective>, objID: string, user: string)
  {
    exists i :: 0 <= i < |rows| && rows[i].objID == objID && rows[i].learnerID == user && rows[i].scopeID == ""
  }

  /** The row `addObj` inserts: encoded ID, the learner, scope "" and the normalised status values. */
  function NewGlobalRow(d: ObjectivesData, encoded: string): Objective
  {
    Objective(encoded, d.userID, NormaliseSatisfied(d.satisfied), d.measure, "",
              d.rawScore, d.minScore, d.maxScore, d.progressMeasure,
              NormaliseCompletion(d.completionStatus))
  }

  /** The table afterwards, the returned flag, and what `mObjErr` of the value object was set to (None: untouched). */
  datatype AddResult = AddResult(rows: seq<Objective>, ok: bool, objErr: Option<string>)

  function AddObjective(rows: seq<Objective>, d: ObjectivesData, encode: string -> string): AddResult
  {
    var id := encode(d.objectiveID);
    if HasGlobalRow(rows, id, d.userID) then AddResult(rows, false, Some("dupobjid"))
    else AddResult(rows + [NewGlobalRow(d, id)], true, None)
  }

  /**
   * A duplicate global objective is refused with "dupobjid" and the table
   * is left alone; otherwise exactly one global row is appended, holding
   * the encoded ID, the learner, and the status values with "not
   * satisfied" and "not attempted" normalised and every other value as
   * given.
   */
  lemma AddObjectiveEffect(rows: seq<Objective>, d: ObjectivesData, encode: string -> string)
    ensures var r := AddObjective(rows, d, encode);
      var id := encode(d.objectiveID);
      && (HasGlobalRow(rows, id, d.userID) <==> !r.ok)
      && (!r.ok ==> r.rows == rows && r.objErr == Some("dupobjid"))
      && (r.ok ==>
            && r.objErr == None
            && |r.rows| == |rows| + 1 && r.rows[..|rows|] == rows
            && var o := r.rows[|rows|];
            && o.objID == id && o.learnerID == d.userID && o.scopeID == ""
            && o.satisfied == (if d.satisfied == "not satisfied" then "notSatisfied" else d.satisfied)
            && o.completion == (if d.completionStatus == "not attempted" then "notAttempted" else d.completionStatus)
            && o.measure == d.measure && o.rawScore == d.rawScore && o.minScore == d.minScore
            && o.maxScore == d.maxScore && o.progressMeasure == d.progressMeasure)
  {
    var r := AddObjective(rows, d, encode);
    if r.ok {
      assert r.rows[..|rows|] == rows;
    }
  }

  /** At most one global row per (encoded objective ID, learner). */
  ghost predicate UniqueGlobalKeys(rows: seq<Objective>)
  {
    forall i, j :: 0 <= i < j < |rows| && rows[i].scopeID == "" && rows[j].scopeID == "" ==>
      rows[i].objID != rows[j].objID || rows[i].learnerID != rows[j].learnerID
  }

  /** `addObj` keeps the global objectives free of duplicate keys, and a repeated add is refused. */
  lemma AddObjectiveKeepsKeysUnique(rows: seq<Objective>, d: ObjectivesData, encode: string -> string)
    requires UniqueGlobalKeys(rows)
    ensures var r := AddObjective(rows, d, encode);
      && UniqueGlobalKeys(r.rows)
      && !AddObjective(r.rows, d, encode).ok
  {
    var r := AddObjective(rows, d, encode);
    var id := encode(d.objectiveID);
    if r.ok {
      assert r.rows[|rows|].objID == id;
      assert HasGlobalRow(r.rows, id, d.userID);
    }
  }

  // ---------------------------------------------------------------------
  // getObjs

  /** What `getObjs` returns: nothing for the empty course ID, else the learner's rows of that course scope. */
  function CourseObjectives(rows: seq<Objective>, user: string, course: string, f: Foreign): (r: seq<ObjectivesData>)
    ensures course == "" ==> r == []
    ensures forall d :: d in r ==> d.userID == user
    ensures course != "" ==> |r| == |ScopeRows(rows, user, course)|
    ensures course != "" ==> forall d :: d in r <==>
      exists o :: o in rows && o.learnerID == user && o.scopeID == course && d == ToData(o, f)
  {
    if course == "" then []
    else
      var sel := ScopeRows(rows, user, course);
      var r := ToDataAll(sel, f);
      forall i | 0 <= i < |r| ensures r[i].userID == user {
        assert sel[i] in sel;
      }
      forall d | d in r ensures exists o :: o in rows && o.learnerID == user && o.scopeID == course && d == ToData(o, f) {
        var i :| 0 <= i < |r| && r[i] == d;
        assert sel[i] in sel;
      }
      forall o | o in rows && o.learnerID == user && o.scopeID == course ensures ToData(o, f) in r {
        var i :| 0 <= i < |sel| && sel[i] == o;
        assert r[i] == ToData(o, f);
      }
      r
  }

  // ---------------------------------------------------------------------
  // editObjs

  /** A parsed form parameter: the submit button, or an action on (objective ID, learner). */
  datatype EditRequest = SubmitButton | Edit(objectiveID: string, learnerID: string, action: string)

  /**
   * Parses one parameter: drop everything through the first '~' (nothing
   * when there is none), split at the last ':' into name and value, and
   * unless the name is "submit" split it at the last ';' into objective ID
   * and learner. A missing ':' or ';' is the StringIndexOutOfBounds failure
   * of `substring(0, -1)`: `None`.
   */
  function ParseEditParam(param: string): Option<EditRequest>
  {
    ParseNameValue(param[IndexOf(param, "~") + 1..])
  }

  /** The part of `ParseEditParam` after the '~' prefix is dropped. */
  function ParseNameValue(p: string): Option<EditRequest>
  {
    var split := LastIndexOf(p, ':');
    if split == -1 then None
    else
      var name := p[..split];
      var value := p[split + 1..];
      if name == "submit" then Some(SubmitButton)
      else
        var k := LastIndexOf(name, ';');
        if k == -1 then None
        else Some(Edit(name[..k], name[k + 1..], value))
  }

  lemma {:induction false} FirstIndexOfChar(a: string, c: char, b: string)
    requires c !in a
    ensures IndexOf(a + [c] + b, [c]) == |a|
  {
    var s := a + [c] + b;
    assert s[|a|..|a| + 1] == [c];
    assert MatchAt(s, [c], |a|);
    forall i | 0 <= i < |a| ensures !MatchAt(s, [c], i) {
      assert s[i] == a[i];
    }
  }

  lemma {:induction false} LastIndexOfChar(a: string, c: char, b: string)
    requires c !in b
    ensures LastIndexOf(a + [c] + b, c) == |a|
  {
    var s := a + [c] + b;
    assert s[|a|] == c;
  }

  /** Dropping through the first '~' of `n + "~" + rest` leaves `rest` when `n` has no '~'. */
  lemma DropPrefix(n: string, rest: string)
    requires '~' !in n
    ensures ParseEditParam(n + "~" + rest) == ParseNameValue(rest)
  {
    var param := n + "~" + rest;
    assert "~" == ['~'];
    assert param == n + ['~'] + rest;
    FirstIndexOfChar(n, '~', rest);
    assert param[|n| + 1..] == rest;
  }

  lemma ParseNameValueRoundTrip(objectiveID: string, learner: string, action: string)
    requires ';' !in learner && ':' !in learner && ':' !in action
    ensures ParseNameValue(objectiveID + ";" + learner + ":" + action) == Some(Edit(objectiveID, learner, action))
  {
    var name := objectiveID + [';'] + learner;
    var rest := name + [':'] + action;
    assert objectiveID + ";" + learner + ":" + action == rest;
    LastIndexOfChar(name, ':', action);
    assert rest[..|name|] == name && rest[|name| + 1..] == action;
    LastIndexOfChar(objectiveID, ';', learner);
    assert name[..|objectiveID|] == objectiveID && name[|objectiveID| + 1..] == learner;
    assert name != "submit" by {
      assert name[|objectiveID|] == ';';
      assert ';' !in "submit";
    }
  }

  /** The page's parameter for an action parses back into that action. */
  lemma ParseEditRoundTrip(n: string, objectiveID: string, learner: string, action: string)
    requires '~' !in n && ';' !in learner && ':' !in learner && ':' !in action
    ensures ParseEditParam(n + "~" + objectiveID + ";" + learner + ":" + action)
            == Some(Edit(objectiveID, learner, action))
  {
    var rest := objectiveID + ";" + learner + ":" + action;
    var param := n + "~" + objectiveID + ";" + learner + ":" + action;
    assert param == n + "~" + rest;
    DropPrefix(n, rest);
    ParseNameValueRoundTrip(objectiveID, learner, action);
  }

  /** The submit button's parameter parses to the button and is skipped. */
  lemma ParseEditSubmit(n: string, value: string)
    requires '~' !in n && ':' !in value
    ensures ParseEditParam(n + "~submit:" + value) == Some(SubmitButton)
  {
    var rest := "submit:" + value;
    var param := n + "~submit:" + value;
    assert param == n + "~" + rest;
    DropPrefix(n, rest);
    ParseSubmitValue(value);
  }

  lemma ParseSubmitValue(value: string)
    requires ':' !in value
    ensures ParseNameValue("submit:" + value) == Some(SubmitButton)
  {
    var name := "submit";
    assert ':' !in name;
    var rest := name + [':'] + value;
    assert "submit:" + value == rest;
    LastIndexOfChar(name, ':', value);
    assert rest[..6] == name;
  }

  /** The seven status columns a reset sets to "unknown". */
  function ResetRow(o: Objective): Objective
  {
    o.(satisfied := "unknown", measure := "unknown", rawScore := "unknown", minScore := "unknown",
       maxScore := "unknown", progressMeasure := "unknown", completion := "unknown")
  }

  predicate Matches(o: Objective, objID: string, learner: string)
  {
    o.objID == objID && o.learnerID == learner
  }

  /** UPDATE ... WHERE objID = ? AND learnerID = ?, over every scope. */
  function ResetMatching(rows: seq<Objective>, objID: string, learner: string): (r: seq<Objective>)
    ensures |r| == |rows|
    ensures forall i :: 0 <= i < |rows| ==>
      r[i] == if Matches(rows[i], objID, learner) then ResetRow(rows[i]) else rows[i]
  {
    if |rows| == 0 then []
    else ResetMatching(rows[..|rows| - 1], objID, learner)
         + [if Matches(rows[|rows| - 1], objID, learner) then ResetRow(rows[|rows| - 1]) else rows[|rows| - 1]]
  }

  /** DELETE ... WHERE objID = ? AND learnerID = ?, over every scope. */
  function DeleteMatching(rows: seq<Objective>, objID: string, learner: string): (r: seq<Objective>)
    ensures forall o :: o in r <==> o in rows && !Matches(o, objID, learner)
  {
    Filter(rows, (o: Objective) => !Matches(o, objID, learner))
  }

  /** Resetting or deleting the same objective twice is the same as doing it once. */
  lemma EditIdempotent(rows: seq<Objective>, objID: string, learner: string)
    ensures ResetMatching(ResetMatching(rows, objID, learner), objID, learner) == ResetMatching(rows, objID, learner)
    ensures DeleteMatching(DeleteMatching(rows, objID, learner), objID, learner) == DeleteMatching(rows, objID, learner)
  {
    var d := DeleteMatching(rows, objID, learner);
    FilterAll(d, (o: Objective) => !Matches(o, objID, learner));
  }

  /** One parsed request applied to the table; an action other than "reset" or "delete" does nothing. */
  function ApplyEdit(rows: seq<Objective>, req: EditRequest, encode: string -> string): seq<Objective>
  {
    match req
    case SubmitButton => rows
    case Edit(id, learner, action) =>
      var objID := encode(id);
      if action == "reset" then ResetMatching(rows, objID, learner)
      else if action == "delete" then DeleteMatching(rows, objID, learner)
      else rows
  }

  datatype EditResult = EditResult(rows: seq<Objective>, ok: bool)

  /** `editObjs`: the parameters in order, stopping at the first that does not parse. */
  function EditObjs(rows: seq<Objective>, params: seq<string>, encode: string -> string): EditResult
  {
    if |params| == 0 then EditResult(rows, true)
    else
      var p := EditObjs(rows, params[..|params| - 1], encode);
      if !p.ok then p
      else match ParseEditParam(params[|params| - 1])
        case None => EditResult(p.rows, false)
        case Some(req) => EditResult(ApplyEdit(p.rows, req, encode), true)
  }

  /** `editObjs` one parameter further, while every parameter so far has parsed. */
  lemma EditObjsStep(rows: seq<Objective>, params: seq<string>, i: int, encode: string -> string)
    requires 0 <= i < |params|
    requires EditObjs(rows, params[..i], encode).ok
    ensures var prev := EditObjs(rows, params[..i], encode).rows;
      EditObjs(rows, params[..i + 1], encode)
      == match ParseEditParam(params[i])
         case None => EditResult(prev, false)
         case Some(req) => EditResult(ApplyEdit(prev, req, encode), true)
  {
    assert params[..i + 1][..i] == params[..i];
  }

  /** After a parameter fails to parse, the later ones have no effect. */
  lemma {:induction false} EditFailureIsFinal(rows: seq<Objective>, a: seq<string>, b: seq<string>, encode: string -> string)
    requires !EditObjs(rows, a, encode).ok
    ensures EditObjs(rows, a + b, encode) == EditObjs(rows, a, encode)
  {
    if |b| > 0 {
      EditFailureIsFinal(rows, a, b[..|b| - 1], encode);
      assert (a + b)[..|a + b| - 1] == a + b[..|b| - 1];
    } else {
      assert a + b == a;
    }
  }

  /** The learner a parameter names, if it parses to an action on an objective. */
  predicate NamesLearner(param: string, learner: string)
  {
    var req := ParseEditParam(param);
    req.Some? && req.value.Edit? && req.value.learnerID == learner
  }

  /** Rows of a learner no parameter names are neither reset nor deleted. */
  lemma {:induction false} EditLeavesOthers(rows: seq<Objective>, params: seq<string>, encode: string -> string, o: Objective)
    requires o in rows
    requires forall i :: 0 <= i < |params| ==> !NamesLearner(params[i], o.learnerID)
    ensures o in EditObjs(rows, params, encode).rows
  {
    if |params| > 0 {
      EditLeavesOthers(rows, params[..|params| - 1], encode, o);
      var p := EditObjs(rows, params[..|params| - 1], encode);
      if p.ok {
        var req := ParseEditParam(params[|params| - 1]);
        if req.Some? && req.value.Edit? {
          var k :| 0 <= k < |p.rows| && p.rows[k] == o;
          var r := ResetMatching(p.rows, encode(req.value.objectiveID), req.value.learnerID);
          assert !Matches(o, encode(req.value.objectiveID), req.value.learnerID);
          assert r[k] == o;
        }
      }
    }
  }
}
