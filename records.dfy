/**
 * The rows, records and stores the course service works on: the
 * registration table (UserCourseInfo), the course-status table
 * (CourseStatus), the objectives table (Objectives), the serialized
 * activity trees on disk, the course catalog (CourseInfo.Active), and the
 * value objects handed to and returned by the service (ObjectivesData,
 * CourseData).
 */
module Records {

  datatype Option<+T> = None | Some(value: T)

  /** A (learner, course) pair: the key of UserCourseInfo and CourseStatus rows and of a learner's course directory. */
  datatype Enrollment = Enrollment(user: string, course: string)

  /**
   * A CourseStatus row. Registration inserts only the key columns; the
   * other columns keep whatever default the table declares, which is not
   * part of this model and is written `None`.
   */
  datatype CourseStatus = CourseStatus(
    satisfied: Option<string>,
    measure: Option<string>,
    completed: Option<string>,
    progMeasure: Option<string>)

  /** The row inserted by registration: key columns only. */
  const NewStatus := CourseStatus(None, None, None, None)

  /**
   * A serialized sequencing activity tree, reduced to the three parts the
   * service reads or writes: the learner it is bound to, its scope ID and
   * the global objective IDs its manifest declared (`None` for a null list).
   */
  datatype ActivityTree = ActivityTree(
    learnerID: string,
    scopeID: string,
    globalObjectives: Option<seq<string>>)

  /** `setLearnerID` on a freshly deserialized copy: the template itself is not touched. */
  function Bind(tree: ActivityTree, user: string): (r: ActivityTree)
    ensures r.learnerID == user
    ensures r.scopeID == tree.scopeID && r.globalObjectives == tree.globalObjectives
  {
    tree.(learnerID := user)
  }

  /**
   * A row of the Objectives table, in the column order of the positional
   * INSERT that adds global objectives. `scopeID == ""` marks a global
   * objective; any other scope is a course scope.
   */
  datatype Objective = Objective(
    objID: string,
    learnerID: string,
    satisfied: string,
    measure: string,
    scopeID: string,
    rawScore: string,
    minScore: string,
    maxScore: string,
    progressMeasure: string,
    completion: string)

  /** The ObjectivesData value object exchanged with the administration pages. */
  datatype ObjectivesData = ObjectivesData(
    objectiveID: string,
    userID: string,
    satisfied: string,
    measure: string,
    rawScore: string,
    minScore: string,
    maxScore: string,
    progressMeasure: string,
    completionStatus: string)

  /** The CourseData value object, reduced to the course ID and the registered flag. */
  datatype CourseData = CourseData(courseID: string, registered: bool)

  /** `ADLSeqUtilities.createGlobalObjs(learner, scope, ids)` as an effect on the Objectives table. */
  type GlobalObjsEffect = (string, string, seq<string>, seq<Objective>) -> seq<Objective>

  /**
   * Code outside the service that it calls and whose source is not part of
   * this model: the objective-ID codec and the creation of global objective
   * rows from a tree's declared list.
   */
  datatype Foreign = Foreign(
    encodeObjectiveID: string -> string,
    decodeObjectiveID: string -> string,
    processWhitespace: string -> string,
    createGlobalObjs: GlobalObjsEffect)

  /** Everything the service can change, as one value. */
  datatype Store = Store(
    registrations: set<Enrollment>,
    statuses: map<Enrollment, CourseStatus>,
    objectives: seq<Objective>,
    trees: map<Enrollment, ActivityTree>,
    courseDirs: set<Enrollment>,
    catalog: map<string, bool>)

  /** An objective row converted to the value object, as the two objective queries do. */
  function ToData(o: Objective, f: Foreign): (d: ObjectivesData)
    ensures d.objectiveID == f.decodeObjectiveID(f.processWhitespace(o.objID))
    ensures d.userID == o.learnerID && d.satisfied == o.satisfied && d.measure == o.measure
    ensures d.rawScore == o.rawScore && d.minScore == o.minScore && d.maxScore == o.maxScore
    ensures d.progressMeasure == o.progressMeasure && d.completionStatus == o.completion
  {
    ObjectivesData(
      f.decodeObjectiveID(f.processWhitespace(o.objID)),
      o.learnerID, o.satisfied, o.measure, o.rawScore, o.minScore,
      o.maxScore, o.progressMeasure, o.completion)
  }

  /** The rows of `rows` that satisfy `keep`, in table order. */
  function Filter(rows: seq<Objective>, keep: Objective -> bool): (r: seq<Objective>)
    ensures |r| <= |rows|
    ensures forall o :: o in r <==> o in rows && keep(o)
  {
    if |rows| == 0 then []
    else
      var init := Filter(rows[..|rows| - 1], keep);
      var last := rows[|rows| - 1];
      assert rows == rows[..|rows| - 1] + [last];
      if keep(last) then init + [last] else init
  }

  /** Filtering keeps every copy of a kept row and no copy of a dropped one. */
  lemma {:induction false} FilterCounts(rows: seq<Objective>, keep: Objective -> bool, o: Objective)
    ensures multiset(Filter(rows, keep))[o] == if keep(o) then multiset(rows)[o] else 0
  {
    if |rows| > 0 {
      var init := rows[..|rows| - 1];
      FilterCounts(init, keep, o);
      assert rows == init + [rows[|rows| - 1]];
    }
  }

  /**
   * Filtering keeps table order: the kept rows of a table split in two are
   * the kept rows of the first part followed by those of the second.
   */
  lemma {:induction false} FilterConcat(a: seq<Objective>, b: seq<Objective>, keep: Objective -> bool)
    ensures Filter(a + b, keep) == Filter(a, keep) + Filter(b, keep)
  {
    if |b| > 0 {
      var init := b[..|b| - 1];
      var last := b[|b| - 1];
      FilterConcat(a, init, keep);
      assert (a + b)[..|a + b| - 1] == a + init;
      assert (a + b)[|a + b| - 1] == last;
      assert b[..|b| - 1] == init;
    } else {
      assert a + b == a;
    }
  }

  lemma {:induction false} FilterAll(rows: seq<Objective>, keep: Objective -> bool)
    requires forall o :: o in rows ==> keep(o)
    ensures Filter(rows, keep) == rows
  {
    if |rows| > 0 {
      FilterAll(rows[..|rows| - 1], keep);
      assert rows == rows[..|rows| - 1] + [rows[|rows| - 1]];
    }
  }

  /** The rows of one learner in one scope (scope "" selects the global objectives), in table order. */
  function ScopeRows(rows: seq<Objective>, user: string, scope: string): (r: seq<Objective>)
    ensures forall o :: o in r <==> o in rows && o.learnerID == user && o.scopeID == scope
  {
    Filter(rows, (o: Objective) => o.learnerID == user && o.scopeID == scope)
  }

  /** Rows converted to value objects one by one, in order. */
  function ToDataAll(rows: seq<Objective>, f: Foreign): (r: seq<ObjectivesData>)
    ensures |r| == |rows|
    ensures forall i :: 0 <= i < |rows| ==> r[i] == ToData(rows[i], f)
  {
    seq(|rows|, i requires 0 <= i < |rows| => ToData(rows[i], f))
  }

  /** Extending the scanned rows by one row extends the selected value objects by that row when it is in scope. */
  lemma ScopeDataStep(rows: seq<Objective>, k: nat, user: string, scope: string, f: Foreign)
    requires k < |rows|
    ensures ToDataAll(ScopeRows(rows[..k + 1], user, scope), f)
         == ToDataAll(ScopeRows(rows[..k], user, scope), f)
            + (if rows[k].learnerID == user && rows[k].scopeID == scope then [ToData(rows[k], f)] else [])
  {
    assert rows[..k + 1][..k] == rows[..k];
    var a := ScopeRows(rows[..k], user, scope);
    if rows[k].learnerID == user && rows[k].scopeID == scope {
      assert ScopeRows(rows[..k + 1], user, scope) == a + [rows[k]];
      assert ToDataAll(a + [rows[k]], f) == ToDataAll(a, f) + [ToData(rows[k], f)];
    } else {
      assert ScopeRows(rows[..k + 1], user, scope) == a;
    }
  }
}
