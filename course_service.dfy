/**
 * The course service object: the store it works on (registration rows,
 * course-status rows, objective rows, learners' activity trees and course
 * directories, and the course catalog), the imported course templates it
 * reads, and the `mUserID` field its operations overwrite. Each operation
 * is proved against the specification function of its module.
 */
module Service {
  import opened Records
  import opened JavaStrings
  import opened Registration
  import Objectives
  import opened GlobalObjectives
  import opened Listings

  /**
   * The elements of a set in some order, each once: how a query without a
   * visible ORDER BY hands back its rows.
   */
  method Enumerate(s: set<string>) returns (r: seq<string>)
    ensures Distinct(r)
    ensures forall c :: c in r <==> c in s
  {
    r := [];
    var rest := s;
    while rest != {}
      invariant forall c :: c in s <==> c in r || c in rest
      invariant forall c :: c in r ==> c !in rest
      invariant Distinct(r)
      decreases |rest|
    {
      var c :| c in rest;
      r := r + [c];
      rest := rest - {c};
    }
  }

  /** The caller's vector of objective records, which `getGlobalObjs` appends to in place. */
  class ObjectiveVector {
    var elements: seq<ObjectivesData>

    constructor (init: seq<ObjectivesData>)
      ensures elements == init
    {
      elements := init;
    }
  }

  class CourseService {
    /** The user the last operation was for (`mUserID`); the register and unregister steps act for this user. */
    var userID: string
    var registrations: set<Enrollment>
    var statuses: map<Enrollment, CourseStatus>
    var objectives: seq<Objective>
    var trees: map<Enrollment, ActivityTree>
    var courseDirs: set<Enrollment>
    var catalog: map<string, bool>
    /** The serialized activity tree of each imported course (CourseImports/<course>/serialize.obj). */
    const imports: map<string, ActivityTree>
    const foreign: Foreign

    function State(): Store
      reads this
    {
      Store(registrations, statuses, objectives, trees, courseDirs, catalog)
    }

    constructor (imports: map<string, ActivityTree>, foreign: Foreign, initial: Store)
      ensures State() == initial && userID == ""
      ensures this.imports == imports && this.foreign == foreign
    {
      this.imports := imports;
      this.foreign := foreign;
      userID := "";
      registrations := initial.registrations;
      statuses := initial.statuses;
      objectives := initial.objectives;
      trees := initial.trees;
      courseDirs := initial.courseDirs;
      catalog := initial.catalog;
    }

    // -------------------------------------------------------------------
    // updateRegCourses and resetCourses

    /** The body of the registration branch for one course, for `userID`. */
    method Register(course: string) returns (ok: bool)
      modifies this
      ensures userID == old(userID)
      ensures StepResult(State(), ok) == RegisterCourse(old(State()), userID, course, imports, foreign.createGlobalObjs)
    {
      var e := Enrollment(userID, course);
      if e in registrations {
        return true;
      }
      registrations := registrations + {e};
      statuses := statuses[e := NewStatus];
      if course !in imports {
        return false;
      }
      var tree := Bind(imports[course], userID);
      if tree.globalObjectives.Some? {
        objectives := foreign.createGlobalObjs(userID, tree.scopeID, tree.globalObjectives.value, objectives);
      }
      courseDirs := courseDirs + {e};
      trees := trees[e := tree];
      return true;
    }

    /** The body of the unregistration loop for one queued course, for `userID`. */
    method Unregister(course: string)
      modifies this
      ensures userID == old(userID)
      ensures State() == UnregisterCourse(old(State()), userID, course)
    {
      var e := Enrollment(userID, course);
      if e in registrations {
        registrations := registrations - {e};
        objectives := DeleteScope(objectives, userID, course);
        statuses := statuses - {e};
        trees := trees - {e};
        courseDirs := courseDirs - {e};
      }
    }

    /** One parameter of the first loop of `updateRegCourses`: registers the course a register token names. */
    method RegisterParam(paramName: string) returns (ok: bool)
      modifies this
      ensures userID == old(userID)
      ensures StepResult(State(), ok) == RegisterToken(old(State()), userID, paramName, imports, foreign.createGlobalObjs)
    {
      ok := true;
      if IndexOf(paramName, RegisterTag) != -1 {
        TaggedTokenLength(paramName);
        ok := Register(paramName[3..]);
      }
    }

    /**
     * The first loop of `updateRegCourses`: registers inline, in list order,
     * while queueing the course IDs to unregister; stops at the first failure.
     */
    method RegisterAndQueue(courseIDs: seq<string>) returns (ok: bool, unregister: seq<string>)
      modifies this
      ensures userID == old(userID)
      ensures StepResult(State(), ok) == RegisterPass(old(State()), userID, courseIDs, imports, foreign.createGlobalObjs)
      ensures ok ==> unregister == Queue(courseIDs)
    {
      ghost var s0 := State();
      ghost var create := foreign.createGlobalObjs;
      unregister := [];
      var i := 0;
      while i < |courseIDs|
        invariant 0 <= i <= |courseIDs|
        invariant userID == old(userID)
        invariant unregister == Queue(courseIDs[..i])
        invariant RegisterPass(s0, userID, courseIDs[..i], imports, create) == StepResult(State(), true)
      {
        var paramName := courseIDs[i];
        RegisterPassStep(s0, userID, courseIDs, i, imports, create);
        QueueStep(courseIDs, i);
        if IndexOf(paramName, UnregisterTag) != -1 {
          unregister := unregister + [paramName[3..]];
        }
        var registered := RegisterParam(paramName);
        if !registered {
          FailureStopsPass(s0, userID, courseIDs, i, imports, create);
          return false, unregister;
        }
        i := i + 1;
      }
      assert courseIDs[..i] == courseIDs;
      return true, unregister;
    }

    /** The second loop of `updateRegCourses`: each queued course unregistered in turn. */
    method UnregisterQueued(unregister: seq<string>)
      modifies this
      ensures userID == old(userID)
      ensures State() == UnregisterAll(old(State()), userID, unregister)
    {
      var j := 0;
      while j < |unregister|
        invariant 0 <= j <= |unregister|
        invariant userID == old(userID)
        invariant State() == UnregisterAll(old(State()), userID, unregister[..j])
      {
        assert unregister[..j + 1][..j] == unregister[..j];
        Unregister(unregister[j]);
        j := j + 1;
      }
      assert unregister[..j] == unregister;
    }

    /** `updateRegCourses`: the registration loop, then, if nothing failed, the queued unregistrations. */
    method UpdateRegCourses(courseIDs: seq<string>, user: string) returns (ok: bool)
      modifies this
      ensures userID == user
      ensures StepResult(State(), ok) == UpdateReg(old(State()), user, courseIDs, imports, foreign.createGlobalObjs)
    {
      userID := user;
      var unregister;
      ok, unregister := RegisterAndQueue(courseIDs);
      if ok {
        UnregisterQueued(unregister);
      }
    }

    /** `resetCourses`: a first pass; if it succeeds, a second pass with each first "RE_" turned into "UN_". */
    method ResetCourses(courseIDs: seq<string>, user: string) returns (ok: bool)
      modifies this
      ensures userID == user
      ensures StepResult(State(), ok) == Reset(old(State()), user, courseIDs, imports, foreign.createGlobalObjs)
    {
      ok := UpdateRegCourses(courseIDs, user);
      if !ok {
        return;
      }
      var tempIDs: seq<string> := [];
      var i := 0;
      while i < |courseIDs|
        invariant 0 <= i <= |courseIDs|
        invariant |tempIDs| == i
        invariant forall k :: 0 <= k < i ==> tempIDs[k] == ReplaceFirst(courseIDs[k], "RE_", "UN_")
      {
        tempIDs := tempIDs + [ReplaceFirst(courseIDs[i], "RE_", "UN_")];
        i := i + 1;
      }
      assert tempIDs == ResetTokens(courseIDs);
      ok := UpdateRegCourses(tempIDs, user);
    }

    // -------------------------------------------------------------------
    // deleteCourse

    /** `deleteCourse`: deactivates each course selected with a "RE_" or "UN_" prefix. */
    method DeleteCourse(ids: seq<string>) returns (ok: bool)
      modifies this
      ensures ok
      ensures userID == old(userID)
      ensures State() == old(State()).(catalog := Deactivate(old(catalog), ids))
    {
      var i := 0;
      while i < |ids|
        invariant 0 <= i <= |ids|
        invariant userID == old(userID)
        invariant State() == old(State()).(catalog := Deactivate(old(catalog), ids[..i]))
      {
        var courseID := ids[i];
        assert ids[..i + 1][..i] == ids[..i];
        if StartsWith(courseID, "RE_") || StartsWith(courseID, "UN_") {
          courseID := courseID[3..];
          if courseID in catalog {
            catalog := catalog[courseID := false];
          }
        }
        i := i + 1;
      }
      assert ids[..i] == ids;
      return true;
    }

    // -------------------------------------------------------------------
    // objectives

    /**
     * `addObj`: looks for a global row with the encoded ID for the record's
     * user; reports "dupobjid" if there is one and inserts the row if not.
     */
    method AddObj(d: ObjectivesData) returns (ok: bool, objErr: Option<string>)
      modifies this
      ensures userID == d.userID
      ensures Objectives.AddResult(objectives, ok, objErr) == Objectives.AddObjective(old(objectives), d, foreign.encodeObjectiveID)
      ensures State() == old(State()).(objectives := objectives)
    {
      userID := d.userID;
      var objectiveID := foreign.encodeObjectiveID(d.objectiveID);
      var satisfiedValue := d.satisfied;
      var newCompletionStatus := d.completionStatus;
      if d.satisfied == "not satisfied" {
        satisfiedValue := "notSatisfied";
      }
      if newCompletionStatus == "not attempted" {
        newCompletionStatus := "notAttempted";
      }
      var duplicate := false;
      var k := 0;
      while k < |objectives| && !duplicate
        invariant 0 <= k <= |objectives|
        invariant duplicate ==> Objectives.HasGlobalRow(objectives, objectiveID, userID)
        invariant !duplicate ==> forall j :: 0 <= j < k ==>
          !(objectives[j].objID == objectiveID && objectives[j].learnerID == userID && objectives[j].scopeID == "")
      {
        var o := objectives[k];
        if o.objID == objectiveID && o.learnerID == userID && o.scopeID == "" {
          duplicate := true;
        }
        k := k + 1;
      }
      if duplicate {
        ok, objErr := false, Some("dupobjid");
      } else {
        objectives := objectives + [Objective(objectiveID, userID, satisfiedValue, d.measure, "", d.rawScore,
                                              d.minScore, d.maxScore, d.progressMeasure, newCompletionStatus)];
        ok, objErr := true, None;
      }
    }

    /** The learner's global objective rows as records, in table order. */
    function GlobalRows(user: string): seq<ObjectivesData>
      reads this
    {
      ToDataAll(ScopeRows(objectives, user, ""), foreign)
    }

    /**
     * The inner loop of `getGlobalObjs`: whether the vector was scanned at
     * all (it is non-empty) and whether an element carries the objective ID.
     */
    static method ScanVector(elements: seq<ObjectivesData>, id: string) returns (scanned: bool, hit: bool)
      ensures scanned == (|elements| > 0)
      ensures hit == HasObjectiveID(elements, id)
    {
      scanned, hit := false, false;
      var i := 0;
      while i < |elements|
        invariant 0 <= i <= |elements|
        invariant scanned == (i > 0)
        invariant !hit
        invariant forall j :: 0 <= j < i ==> elements[j].objectiveID != id
      {
        scanned := true;
        if id == elements[i].objectiveID {
          hit := true;
          break;
        }
        i := i + 1;
      }
    }

    /** `getGlobalObjs`: merges the user's global objectives into the caller's vector and returns that same vector. */
    method GetGlobalObjs(user: string, vec: ObjectiveVector) returns (r: ObjectiveVector)
      modifies vec
      ensures r == vec
      ensures vec.elements == GlobalMerge(old(vec.elements), GlobalRows(user))
    {
      var rows := GlobalRows(user);
      var foundObjective := false;
      var firstQueryEmpty := true;
      var k := 0;
      while k < |rows|
        invariant 0 <= k <= |rows|
        invariant MergeFrom(MergeState(old(vec.elements), false, true), rows[..k])
                  == MergeState(vec.elements, foundObjective, firstQueryEmpty)
      {
        var od := rows[k];
        var scanned, hit := ScanVector(vec.elements, od.objectiveID);
        if scanned {
          firstQueryEmpty := false;
        }
        if hit {
          foundObjective := true;
        }
        if firstQueryEmpty || !foundObjective {
          vec.elements := vec.elements + [od];
        }
        assert rows[..k + 1][..k] == rows[..k];
        k := k + 1;
      }
      assert rows[..k] == rows;
      return vec;
    }

    /** The loop of `getObjs`: the rows of one learner in one scope, as value objects in table order. */
    static method SelectScope(rows: seq<Objective>, user: string, scope: string, f: Foreign) returns (r: seq<ObjectivesData>)
      ensures r == ToDataAll(ScopeRows(rows, user, scope), f)
    {
      r := [];
      var k := 0;
      while k < |rows|
        invariant 0 <= k <= |rows|
        invariant r == ToDataAll(ScopeRows(rows[..k], user, scope), f)
      {
        var o := rows[k];
        ScopeDataStep(rows, k, user, scope, f);
        if o.learnerID == user && o.scopeID == scope {
          r := r + [ToData(o, f)];
        }
        k := k + 1;
      }
      assert rows[..k] == rows;
    }

    /** `getObjs`: the user's objectives in the course's scope, none for the empty course ID. */
    method GetObjs(course: string, user: string) returns (r: seq<ObjectivesData>)
      modifies this
      ensures userID == user
      ensures State() == old(State())
      ensures r == Objectives.CourseObjectives(objectives, user, course, foreign)
    {
      userID := user;
      r := [];
      if course != "" {
        r := SelectScope(objectives, user, course, foreign);
      }
    }

    /** One parsed `editObjs` parameter: the submit button is skipped; "reset" and "delete" act on the encoded ID. */
    method ApplyRequest(request: Objectives.EditRequest)
      modifies this
      ensures userID == old(userID)
      ensures State() == old(State()).(objectives := objectives)
      ensures objectives == Objectives.ApplyEdit(old(objectives), request, foreign.encodeObjectiveID)
    {
      match request
      case SubmitButton =>
      case Edit(id, learnerID, paramValue) =>
        var objID := foreign.encodeObjectiveID(id);
        if paramValue == "reset" {
          objectives := Objectives.ResetMatching(objectives, objID, learnerID);
        } else if paramValue == "delete" {
          objectives := Objectives.DeleteMatching(objectives, objID, learnerID);
        }
    }

    /** `editObjs`: applies each reset or delete request in order; a malformed parameter ends the loop with false. */
    method EditObjs(params: seq<string>) returns (ok: bool)
      modifies this
      ensures userID == old(userID)
      ensures State() == old(State()).(objectives := objectives)
      ensures Objectives.EditObjs(old(objectives), params, foreign.encodeObjectiveID) == Objectives.EditResult(objectives, ok)
    {
      var i := 0;
      while i < |params|
        invariant 0 <= i <= |params|
        invariant userID == old(userID)
        invariant State() == old(State()).(objectives := objectives)
        invariant Objectives.EditObjs(old(objectives), params[..i], foreign.encodeObjectiveID) == Objectives.EditResult(objectives, true)
      {
        Objectives.EditObjsStep(old(objectives), params, i, foreign.encodeObjectiveID);
        var request := Objectives.ParseEditParam(params[i]);
        if request.None? {
          Objectives.EditFailureIsFinal(old(objectives), params[..i + 1], params[i + 1..], foreign.encodeObjectiveID);
          assert params[..i + 1] + params[i + 1..] == params;
          return false;
        }
        ApplyRequest(request.value);
        i := i + 1;
      }
      assert params[..i] == params;
      return true;
    }

    // -------------------------------------------------------------------
    // listings

    /** `getCourses(user, ...)`: the active courses, or for a named user the active courses registered to. */
    method GetCourses(user: string) returns (cs: seq<CourseData>)
      modifies this
      ensures userID == user
      ensures State() == old(State())
      ensures Lists(cs, ListedCourses(catalog, registrations, user))
      ensures forall i :: 0 <= i < |cs| ==> !cs[i].registered
    {
      userID := user;
      var ids := Enumerate(ListedCourses(catalog, registrations, user));
      cs := seq(|ids|, i requires 0 <= i < |ids| => CourseData(ids[i], false));
      assert IDs(cs) == ids;
    }

    /** `getRegCourses`: the IDs of the courses the user holds a registration row for. */
    method GetRegCourses(user: string) returns (r: seq<string>)
      modifies this
      ensures userID == user
      ensures State() == old(State())
      ensures Distinct(r)
      ensures forall c :: c in r <==> Enrollment(user, c) in registrations
    {
      userID := user;
      r := Enumerate(RegisteredTo(registrations, user));
    }

    /** `getUnregisteredCourses`: the catalog listing without the user's registered courses. */
    method GetUnregisteredCourses(user: string) returns (cs: seq<CourseData>)
      modifies this
      ensures userID == user
      ensures State() == old(State())
      ensures Lists(cs, ActiveCourses(catalog) - RegisteredTo(registrations, user))
      ensures forall i :: 0 <= i < |cs| ==> !cs[i].registered
    {
      var allCourses := GetCourses("");
      var regCourses := GetRegCourses(user);
      cs := UnregisteredFilter(allCourses, regCourses);
      UnregisteredListing(catalog, registrations, user, allCourses, regCourses);
      forall i | 0 <= i < |cs| ensures !cs[i].registered {
        assert cs[i] in cs;
      }
    }

    /** `getManagedCourses`: the user's courses flagged registered, then the others flagged unregistered. */
    method GetManagedCourses(user: string) returns (cs: seq<CourseData>)
      modifies this
      ensures userID == user
      ensures State() == old(State())
      ensures user != "" ==> Lists(cs, ActiveCourses(catalog))
      ensures user != "" ==> forall i :: 0 <= i < |cs| ==> (cs[i].registered <==> Enrollment(user, cs[i].courseID) in registrations)
      ensures forall i, j :: 0 <= i <= j < |cs| && !cs[i].registered ==> !cs[j].registered
    {
      var courses := GetCourses(user);
      var unregCourses := GetUnregisteredCourses(user);
      cs := Managed(courses, unregCourses);
      if user != "" {
        ManagedPartition(catalog, registrations, user, courses, unregCourses);
      }
    }

    /** `getCommentVector`: the block split at newlines, each piece trimmed. */
    method GetCommentVector(comments: string) returns (v: seq<string>)
      ensures v == Comments(comments)
    {
      var commentArray := JavaSplit(comments, '\n');
      ghost var all := Comments(comments);
      v := [];
      var i := 0;
      while i < |commentArray|
        invariant 0 <= i <= |commentArray| == |all|
        invariant v == all[..i]
      {
        assert all[i] == Trim(commentArray[i]);
        assert all[..i + 1] == all[..i] + [all[i]];
        v := v + [Trim(commentArray[i])];
        i := i + 1;
      }
      assert all[..i] == all;
    }
  }
}
