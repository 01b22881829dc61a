/**
 * The course-catalog side of the course service: deactivating courses
 * (`deleteCourse`), the course listings (`getCourses`, `getRegCourses`,
 * `getUnregisteredCourses`, `getManagedCourses`) and the splitting of a
 * comment block into comments (`getCommentVector`).
 */
module Listings {
  import opened Records
  import opened JavaStrings

  // ---------------------------------------------------------------------
  // deleteCourse

  /** A selection naming a course to delete: "RE_" or "UN_" followed by the course ID. */
  predicate IsDeleteTarget(id: string)
  {
    StartsWith(id, "RE_") || StartsWith(id, "UN_")
  }

  /** `Active = 0` for each selected course, in order; an ID the catalog lacks matches no row. */
  function Deactivate(catalog: map<string, bool>, ids: seq<string>): map<string, bool>
  {
    if |ids| == 0 then catalog
    else
      var c := Deactivate(catalog, ids[..|ids| - 1]);
      var id := ids[|ids| - 1];
      if IsDeleteTarget(id) && id[3..] in c then c[id[3..] := false] else c
  }

  /** Some selection names course `k` for deletion. */
  predicate Selects(ids: seq<string>, k: string)
  {
    exists i :: 0 <= i < |ids| && IsDeleteTarget(ids[i]) && ids[i][3..] == k
  }

  /**
   * `deleteCourse` deactivates exactly the courses named by a "RE_" or
   * "UN_" selection (the prefix dropped), adds no course, and leaves every
   * other catalog entry as it was.
   */
  lemma {:induction false} DeactivateEffect(catalog: map<string, bool>, ids: seq<string>)
    ensures var r := Deactivate(catalog, ids);
      && r.Keys == catalog.Keys
      && forall k :: k in catalog ==> r[k] == if Selects(ids, k) then false else catalog[k]
  {
    if |ids| > 0 {
      var front := ids[..|ids| - 1];
      var id := ids[|ids| - 1];
      DeactivateEffect(catalog, front);
      forall k | k in catalog
        ensures Deactivate(catalog, ids)[k] == if Selects(ids, k) then false else catalog[k]
      {
        if Selects(front, k) {
          var i :| 0 <= i < |front| && IsDeleteTarget(front[i]) && front[i][3..] == k;
          assert ids[i] == front[i];
        } else if IsDeleteTarget(id) && id[3..] == k {
          assert Selects(ids, k);
        }
      }
    }
  }

  /** Deleting the same selection twice is the same as deleting it once. */
  lemma DeactivateIdempotent(catalog: map<string, bool>, ids: seq<string>)
    ensures Deactivate(Deactivate(catalog, ids), ids) == Deactivate(catalog, ids)
  {
    var once := Deactivate(catalog, ids);
    DeactivateEffect(catalog, ids);
    DeactivateEffect(once, ids);
  }

  // ---------------------------------------------------------------------
  // course listings

  /** The catalog's active courses. */
  function ActiveCourses(catalog: map<string, bool>): (r: set<string>)
    ensures forall c :: c in r <==> c in catalog && catalog[c]
  {
    set c | c in catalog && catalog[c]
  }

  /** The courses `user` holds a registration row for, active or not. */
  function RegisteredTo(registrations: set<Enrollment>, user: string): (r: set<string>)
    ensures forall c :: c in r <==> Enrollment(user, c) in registrations
  {
    set e | e in registrations && e.user == user :: e.course
  }

  /** What the catalog query of `getCourses` selects: every active course, or for a user only the ones registered to. */
  function ListedCourses(catalog: map<string, bool>, registrations: set<Enrollment>, user: string): (r: set<string>)
    ensures user == "" ==> r == ActiveCourses(catalog)
    ensures user != "" ==> forall c :: c in r <==> c in catalog && catalog[c] && Enrollment(user, c) in registrations
  {
    if user == "" then ActiveCourses(catalog) else ActiveCourses(catalog) * RegisteredTo(registrations, user)
  }

  predicate Distinct(s: seq<string>)
  {
    forall i, j :: 0 <= i < j < |s| ==> s[i] != s[j]
  }

  function IDs(cs: seq<CourseData>): (r: seq<string>)
    ensures |r| == |cs| && forall i :: 0 <= i < |cs| ==> r[i] == cs[i].courseID
  {
    seq(|cs|, i requires 0 <= i < |cs| => cs[i].courseID)
  }

  /** `getUnregisteredCourses`' filter: the listed courses whose ID is not among the user's registrations, in order. */
  function UnregisteredFilter(all: seq<CourseData>, reg: seq<string>): (r: seq<CourseData>)
    ensures |r| <= |all|
    ensures forall cd :: cd in r <==> cd in all && cd.courseID !in reg
    ensures Distinct(IDs(all)) ==> Distinct(IDs(r))
  {
    if |all| == 0 then []
    else
      var front := all[..|all| - 1];
      var last := all[|all| - 1];
      var init := UnregisteredFilter(front, reg);
      assert all == front + [last];
      if last.courseID in reg then init
      else
        var r := init + [last];
        assert Distinct(IDs(all)) ==> Distinct(IDs(r)) by {
          if Distinct(IDs(all)) {
            DistinctFront(all);
            DistinctSnoc(init, last);
          }
        }
        r
  }

  /** Without its last course a listing with distinct IDs keeps them distinct, and none of them is the last one's. */
  lemma DistinctFront(all: seq<CourseData>)
    requires |all| > 0 && Distinct(IDs(all))
    ensures Distinct(IDs(all[..|all| - 1]))
    ensures forall cd :: cd in all[..|all| - 1] ==> cd.courseID != all[|all| - 1].courseID
  {
    var front := all[..|all| - 1];
    forall i, j | 0 <= i < j < |front| ensures IDs(front)[i] != IDs(front)[j] {
      assert IDs(all)[i] != IDs(all)[j];
    }
    forall cd | cd in front ensures cd.courseID != all[|all| - 1].courseID {
      var j :| 0 <= j < |front| && front[j] == cd;
      assert IDs(all)[j] != IDs(all)[|all| - 1];
    }
  }

  /** Appending a course whose ID is new keeps the IDs distinct. */
  lemma DistinctSnoc(init: seq<CourseData>, last: CourseData)
    requires Distinct(IDs(init))
    requires forall cd :: cd in init ==> cd.courseID != last.courseID
    ensures Distinct(IDs(init + [last]))
  {
    var r := init + [last];
    forall i, j | 0 <= i < j < |r| ensures IDs(r)[i] != IDs(r)[j] {
      if j < |init| {
        assert IDs(init)[i] != IDs(init)[j];
      } else {
        assert r[i] in init;
      }
    }
  }

  /** The same courses with the registered flag set to `flag`. */
  function WithFlag(cs: seq<CourseData>, flag: bool): (r: seq<CourseData>)
    ensures |r| == |cs|
    ensures forall i :: 0 <= i < |cs| ==> r[i] == CourseData(cs[i].courseID, flag)
  {
    seq(|cs|, i requires 0 <= i < |cs| => cs[i].(registered := flag))
  }

  /** `getManagedCourses`: the registered listing flagged true, then the unregistered listing flagged false. */
  function Managed(reg: seq<CourseData>, unreg: seq<CourseData>): (r: seq<CourseData>)
    ensures |r| == |reg| + |unreg|
    ensures forall i, j :: 0 <= i <= j < |r| && !r[i].registered ==> !r[j].registered
  {
    WithFlag(reg, true) + WithFlag(unreg, false)
  }

  /** `cs` lists each course of `courses` exactly once. */
  ghost predicate Lists(cs: seq<CourseData>, courses: set<string>)
  {
    Distinct(IDs(cs)) && forall c :: c in courses <==> c in IDs(cs)
  }

  /**
   * `getUnregisteredCourses` lists each active course the user holds no
   * registration row for exactly once, given the catalog listing and the
   * user's registered course IDs.
   */
  lemma UnregisteredListing(catalog: map<string, bool>, registrations: set<Enrollment>, user: string,
                            all: seq<CourseData>, reg: seq<string>)
    requires Lists(all, ActiveCourses(catalog))
    requires forall c :: c in reg <==> Enrollment(user, c) in registrations
    ensures Lists(UnregisteredFilter(all, reg), ActiveCourses(catalog) - RegisteredTo(registrations, user))
  {
    var r := UnregisteredFilter(all, reg);
    forall c ensures c in ActiveCourses(catalog) - RegisteredTo(registrations, user) <==> c in IDs(r) {
      if c in IDs(r) {
        var k :| 0 <= k < |r| && IDs(r)[k] == c;
        assert r[k] in r;
        var j :| 0 <= j < |all| && all[j] == r[k];
        assert IDs(all)[j] == c;
      }
      if c in ActiveCourses(catalog) - RegisteredTo(registrations, user) {
        var j :| 0 <= j < |all| && IDs(all)[j] == c;
        assert all[j] in r;
        var k :| 0 <= k < |r| && r[k] == all[j];
        assert IDs(r)[k] == c;
      }
    }
  }

  /** The two listings `getManagedCourses` concatenates, as the service returns them for a named user. */
  ghost predicate ListingsAgree(catalog: map<string, bool>, registrations: set<Enrollment>, user: string,
                                regActive: seq<CourseData>, unreg: seq<CourseData>)
  {
    && user != ""
    && Lists(regActive, ListedCourses(catalog, registrations, user))
    && Lists(unreg, ActiveCourses(catalog) - RegisteredTo(registrations, user))
  }

  lemma ManagedFlags(catalog: map<string, bool>, registrations: set<Enrollment>, user: string,
                     regActive: seq<CourseData>, unreg: seq<CourseData>)
    requires ListingsAgree(catalog, registrations, user, regActive, unreg)
    ensures var m := Managed(regActive, unreg);
      forall i :: 0 <= i < |m| ==>
        && m[i].courseID in ActiveCourses(catalog)
        && (m[i].registered <==> Enrollment(user, m[i].courseID) in registrations)
  {
    var m := Managed(regActive, unreg);
    forall i | 0 <= i < |m|
      ensures m[i].courseID in ActiveCourses(catalog)
      ensures m[i].registered <==> Enrollment(user, m[i].courseID) in registrations
    {
      if i < |regActive| {
        assert IDs(regActive)[i] == m[i].courseID;
        assert m[i].courseID in IDs(regActive);
      } else {
        assert IDs(unreg)[i - |regActive|] == m[i].courseID;
        assert m[i].courseID in IDs(unreg);
      }
    }
  }

  lemma ManagedCovers(catalog: map<string, bool>, registrations: set<Enrollment>, user: string,
                      regActive: seq<CourseData>, unreg: seq<CourseData>)
    requires ListingsAgree(catalog, registrations, user, regActive, unreg)
    ensures forall c :: c in ActiveCourses(catalog) ==> c in IDs(Managed(regActive, unreg))
  {
    var m := Managed(regActive, unreg);
    forall c | c in ActiveCourses(catalog) ensures c in IDs(m) {
      if Enrollment(user, c) in registrations {
        var i :| 0 <= i < |regActive| && IDs(regActive)[i] == c;
        assert IDs(m)[i] == c;
      } else {
        assert c in ActiveCourses(catalog) - RegisteredTo(registrations, user);
        var k :| 0 <= k < |unreg| && IDs(unreg)[k] == c;
        assert IDs(m)[|regActive| + k] == c;
      }
    }
  }

  lemma ManagedDistinct(catalog: map<string, bool>, registrations: set<Enrollment>, user: string,
                        regActive: seq<CourseData>, unreg: seq<CourseData>)
    requires ListingsAgree(catalog, registrations, user, regActive, unreg)
    ensures Distinct(IDs(Managed(regActive, unreg)))
  {
    var m := Managed(regActive, unreg);
    var n := |regActive|;
    forall i, j | 0 <= i < j < |m| ensures IDs(m)[i] != IDs(m)[j] {
      if j < n {
        assert IDs(regActive)[i] != IDs(regActive)[j];
      } else if i >= n {
        assert IDs(unreg)[i - n] != IDs(unreg)[j - n];
      } else {
        assert IDs(regActive)[i] in IDs(regActive);
        assert IDs(unreg)[j - n] in IDs(unreg);
      }
    }
  }

  /**
   * The managed listing is a partition of the active catalog: every active
   * course appears exactly once, and it is flagged registered exactly when
   * the user holds a registration row for it.
   */
  lemma ManagedPartition(catalog: map<string, bool>, registrations: set<Enrollment>, user: string,
                         regActive: seq<CourseData>, unreg: seq<CourseData>)
    requires ListingsAgree(catalog, registrations, user, regActive, unreg)
    ensures var m := Managed(regActive, unreg);
      && Lists(m, ActiveCourses(catalog))
      && forall i :: 0 <= i < |m| ==> (m[i].registered <==> Enrollment(user, m[i].courseID) in registrations)
  {
    var m := Managed(regActive, unreg);
    ManagedFlags(catalog, registrations, user, regActive, unreg);
    ManagedCovers(catalog, registrations, user, regActive, unreg);
    ManagedDistinct(catalog, registrations, user, regActive, unreg);
    forall c | c in IDs(m) ensures c in ActiveCourses(catalog) {
      var i :| 0 <= i < |m| && IDs(m)[i] == c;
    }
  }

  // ---------------------------------------------------------------------
  // getCommentVector

  /** The comments of a newline-separated block: each line, trimmed. */
  function Comments(block: string): (r: seq<string>)
    ensures |r| == |JavaSplit(block, '\n')|
  {
    var lines := JavaSplit(block, '\n');
    seq(|lines|, i requires 0 <= i < |lines| => Trim(lines[i]))
  }

  /**
   * Each comment is one line of the block trimmed: it holds no newline and
   * has no leading or trailing blank; rejoining the untrimmed lines gives
   * the block back without its trailing newlines.
   */
  lemma CommentsAreTrimmedLines(block: string)
    ensures var r := Comments(block);
      var lines := JavaSplit(block, '\n');
      && Join(lines, '\n') == StripTrailing(block, '\n')
      && forall i :: 0 <= i < |r| ==> r[i] == Trim(lines[i]) && '\n' !in r[i] && Trim(r[i]) == r[i]
  {
    var lines := JavaSplit(block, '\n');
    JoinJavaSplit(block, '\n');
    forall i | 0 <= i < |lines| ensures '\n' !in Trim(lines[i]) && Trim(Trim(lines[i])) == Trim(lines[i]) {
      TrimKeepsOut(lines[i], '\n');
      TrimIdempotent(lines[i]);
    }
  }

  /** A block without a newline is one comment, even the empty block. */
  lemma CommentsOfOneLine(block: string)
    requires '\n' !in block
    ensures Comments(block) == [Trim(block)]
  {
  }
}
