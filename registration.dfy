/**
 * Batch registration (`updateRegCourses`) and reset (`resetCourses`) as
 * functions on a `Store`. A batch is a list of request tokens: a token that
 * contains "UN_Course-" asks for registration and one that contains
 * "RE_Course-" for unregistration; either way the course ID is the token
 * without its first three characters. Registrations happen inline, in list
 * order; unregistrations are queued and run after the whole list; the first
 * failure (a course whose template was never imported) ends the batch and
 * nothing already done is undone.
 */
module Registration {
  import opened Records
  import opened JavaStrings

  const RegisterTag := "UN_Course-"
  const UnregisterTag := "RE_Course-"

  predicate IsRegisterToken(t: string)
  {
    Contains(t, RegisterTag)
  }

  predicate IsUnregisterToken(t: string)
  {
    Contains(t, UnregisterTag)
  }

  lemma TagLengths()
    ensures |RegisterTag| == 10 && |UnregisterTag| == 10
  {
  }

  /** `paramName.substring(3)`: a token's course ID. */
  function CourseOf(t: string): string
    requires |t| >= 3
  {
    t[3..]
  }

  /** A token that carries either tag is long enough to drop three characters and keep seven. */
  lemma TaggedTokenLength(t: string)
    requires IsRegisterToken(t) || IsUnregisterToken(t)
    ensures |t| >= 10 && |CourseOf(t)| >= 7
  {
    TagLengths();
  }

  datatype StepResult = StepResult(store: Store, ok: bool)

  /**
   * One register request: skipped when the pair is registered already;
   * otherwise the registration row and the status row go in first, and
   * only then is the template looked up, so a missing template fails after
   * those two rows exist.
   */
  function RegisterCourse(s: Store, user: string, course: string,
                          imports: map<string, ActivityTree>, create: GlobalObjsEffect): StepResult
  {
    var e := Enrollment(user, course);
    if e in s.registrations then StepResult(s, true)
    else
      var inserted := s.(registrations := s.registrations + {e}, statuses := s.statuses[e := NewStatus]);
      if course !in imports then StepResult(inserted, false)
      else
        var tree := Bind(imports[course], user);
        var objectives :=
          if tree.globalObjectives.Some?
          then create(user, tree.scopeID, tree.globalObjectives.value, inserted.objectives)
          else inserted.objectives;
        StepResult(inserted.(objectives := objectives,
                             courseDirs := inserted.courseDirs + {e},
                             trees := inserted.trees[e := tree]), true)
  }

  /** The objective rows that survive deleting the (learner, scope) rows. */
  function DeleteScope(rows: seq<Objective>, user: string, scope: string): (r: seq<Objective>)
    ensures forall o :: o in r <==> o in rows && !(o.learnerID == user && o.scopeID == scope)
  {
    Filter(rows, (o: Objective) => !(o.learnerID == user && o.scopeID == scope))
  }

  /**
   * One unregister request: a no-op for a pair that is not registered;
   * otherwise the registration row, the course-scoped objectives, the
   * status row and the learner's course files all go.
   */
  function UnregisterCourse(s: Store, user: string, course: string): Store
  {
    var e := Enrollment(user, course);
    if e !in s.registrations then s
    else s.(registrations := s.registrations - {e},
            objectives := DeleteScope(s.objectives, user, course),
            statuses := s.statuses - {e},
            trees := s.trees - {e},
            courseDirs := s.courseDirs - {e})
  }

  /** The course IDs queued for unregistration, in list order. */
  function Queue(tokens: seq<string>): (r: seq<string>)
    ensures |r| <= |tokens|
    ensures forall c :: c in r ==> |c| >= 7
    ensures forall c :: c in r ==>
      exists i :: 0 <= i < |tokens| && IsUnregisterToken(tokens[i]) && |tokens[i]| >= 3 && CourseOf(tokens[i]) == c
  {
    if |tokens| == 0 then []
    else
      var init := tokens[..|tokens| - 1];
      var t := tokens[|tokens| - 1];
      assert forall i :: 0 <= i < |init| ==> init[i] == tokens[i];
      if IsUnregisterToken(t) then
        TaggedTokenLength(t);
        Queue(init) + [CourseOf(t)]
      else Queue(init)
  }

  function RegisterToken(s: Store, user: string, t: string,
                         imports: map<string, ActivityTree>, create: GlobalObjsEffect): StepResult
  {
    if IsRegisterToken(t) then
      TaggedTokenLength(t);
      RegisterCourse(s, user, CourseOf(t), imports, create)
    else StepResult(s, true)
  }

  /** The registration loop: tokens in order, stopping at the first failure. */
  function RegisterPass(s: Store, user: string, tokens: seq<string>,
                        imports: map<string, ActivityTree>, create: GlobalObjsEffect): StepResult
  {
    if |tokens| == 0 then StepResult(s, true)
    else
      var p := RegisterPass(s, user, tokens[..|tokens| - 1], imports, create);
      if !p.ok then p
      else RegisterToken(p.store, user, tokens[|tokens| - 1], imports, create)
  }

  /** The unregistration loop over the queued course IDs. */
  function UnregisterAll(s: Store, user: string, ids: seq<string>): Store
  {
    if |ids| == 0 then s
    else UnregisterCourse(UnregisterAll(s, user, ids[..|ids| - 1]), user, ids[|ids| - 1])
  }

  /** `updateRegCourses`: the registration loop, then, if nothing failed, the queued unregistrations. */
  function UpdateReg(s: Store, user: string, tokens: seq<string>,
                     imports: map<string, ActivityTree>, create: GlobalObjsEffect): StepResult
  {
    var p := RegisterPass(s, user, tokens, imports, create);
    if !p.ok then p
    else StepResult(UnregisterAll(p.store, user, Queue(tokens)), true)
  }

  /** Each token with its first "RE_" replaced by "UN_". */
  function ResetTokens(tokens: seq<string>): (r: seq<string>)
    ensures |r| == |tokens|
    ensures forall i :: 0 <= i < |r| ==> r[i] == ReplaceFirst(tokens[i], "RE_", "UN_")
  {
    seq(|tokens|, i requires 0 <= i < |tokens| => ReplaceFirst(tokens[i], "RE_", "UN_"))
  }

  /** `resetCourses`: a first pass over the list; only if it succeeds, a second pass over the rewritten list. */
  function Reset(s: Store, user: string, tokens: seq<string>,
                 imports: map<string, ActivityTree>, create: GlobalObjsEffect): StepResult
  {
    var first := UpdateReg(s, user, tokens, imports, create);
    if !first.ok then first
    else UpdateReg(first.store, user, ResetTokens(tokens), imports, create)
  }

  // ---------------------------------------------------------------------
  // Token routing

  /** The registration loop one token further, while nothing has failed. */
  lemma RegisterPassStep(s: Store, user: string, tokens: seq<string>, i: int,
                         imports: map<string, ActivityTree>, create: GlobalObjsEffect)
    requires 0 <= i < |tokens|
    requires RegisterPass(s, user, tokens[..i], imports, create).ok
    ensures RegisterPass(s, user, tokens[..i + 1], imports, create)
            == RegisterToken(RegisterPass(s, user, tokens[..i], imports, create).store, user, tokens[i], imports, create)
  {
    assert tokens[..i + 1][..i] == tokens[..i];
  }

  /** The unregistration queue one token further. */
  lemma QueueStep(tokens: seq<string>, i: int)
    requires 0 <= i < |tokens|
    ensures IsUnregisterToken(tokens[i]) ==> |tokens[i]| >= 3 && Queue(tokens[..i + 1]) == Queue(tokens[..i]) + [CourseOf(tokens[i])]
    ensures !IsUnregisterToken(tokens[i]) ==> Queue(tokens[..i + 1]) == Queue(tokens[..i])
  {
    assert tokens[..i + 1][..i] == tokens[..i];
    if IsUnregisterToken(tokens[i]) {
      TaggedTokenLength(tokens[i]);
    }
  }

  /** A course is queued exactly when some token carrying "RE_Course-" names it. */
  lemma {:induction false} QueueMembership(tokens: seq<string>, c: string)
    ensures c in Queue(tokens) <==>
      exists i :: 0 <= i < |tokens| && IsUnregisterToken(tokens[i]) && |tokens[i]| >= 3 && CourseOf(tokens[i]) == c
  {
    if |tokens| > 0 {
      var init := tokens[..|tokens| - 1];
      QueueMembership(init, c);
      assert forall i :: 0 <= i < |init| ==> init[i] == tokens[i];
    }
  }

  lemma {:induction false} QueueEmpty(tokens: seq<string>)
    requires forall i :: 0 <= i < |tokens| ==> !IsUnregisterToken(tokens[i])
    ensures Queue(tokens) == []
  {
    if |tokens| > 0 {
      QueueEmpty(tokens[..|tokens| - 1]);
    }
  }

  // ---------------------------------------------------------------------
  // The registration loop

  /**
   * Registration never removes a registration row, and when the loop
   * completes every course named by a register token is registered.
   */
  lemma {:induction false} RegisterPassGrows(s: Store, user: string, tokens: seq<string>,
                                             imports: map<string, ActivityTree>, create: GlobalObjsEffect)
    ensures var p := RegisterPass(s, user, tokens, imports, create);
      && s.registrations <= p.store.registrations
      && p.store.catalog == s.catalog
      && (p.ok ==> forall i :: 0 <= i < |tokens| && IsRegisterToken(tokens[i]) && |tokens[i]| >= 3 ==>
                      Enrollment(user, CourseOf(tokens[i])) in p.store.registrations)
  {
    if |tokens| > 0 {
      var init := tokens[..|tokens| - 1];
      RegisterPassGrows(s, user, init, imports, create);
      assert forall i :: 0 <= i < |init| ==> init[i] == tokens[i];
      var t := tokens[|tokens| - 1];
      if IsRegisterToken(t) { TaggedTokenLength(t); }
    }
  }

  /**
   * Nothing else changes: a pair that was registered before the loop, or
   * that belongs to another learner, keeps its registration row, status
   * row, tree and course directory exactly as they were.
   */
  lemma {:induction false} RegisterPassFrame(s: Store, user: string, tokens: seq<string>,
                                             imports: map<string, ActivityTree>, create: GlobalObjsEffect,
                                             e: Enrollment)
    requires e in s.registrations || e.user != user
    ensures var p := RegisterPass(s, user, tokens, imports, create).store;
      && (e in p.registrations <==> e in s.registrations)
      && (e in p.statuses <==> e in s.statuses) && (e in s.statuses ==> p.statuses[e] == s.statuses[e])
      && (e in p.trees <==> e in s.trees) && (e in s.trees ==> p.trees[e] == s.trees[e])
      && (e in p.courseDirs <==> e in s.courseDirs)
  {
    if |tokens| > 0 {
      var init := tokens[..|tokens| - 1];
      RegisterPassFrame(s, user, init, imports, create, e);
      RegisterPassGrows(s, user, init, imports, create);
      var t := tokens[|tokens| - 1];
      if IsRegisterToken(t) { TaggedTokenLength(t); }
    }
  }

  /** Objective rows change only through `createGlobalObjs`: without templates that declare global objectives, the table is untouched. */
  lemma {:induction false} RegisterPassObjectives(s: Store, user: string, tokens: seq<string>,
                                                  imports: map<string, ActivityTree>, create: GlobalObjsEffect)
    requires forall c :: c in imports ==> imports[c].globalObjectives.None?
    ensures RegisterPass(s, user, tokens, imports, create).store.objectives == s.objectives
  {
    if |tokens| > 0 {
      RegisterPassObjectives(s, user, tokens[..|tokens| - 1], imports, create);
      var t := tokens[|tokens| - 1];
      if IsRegisterToken(t) { TaggedTokenLength(t); }
    }
  }

  /** When every course a register token names is registered already, the loop changes nothing. */
  lemma {:induction false} RegisterPassNoop(s: Store, user: string, tokens: seq<string>,
                                            imports: map<string, ActivityTree>, create: GlobalObjsEffect)
    requires forall i :: 0 <= i < |tokens| && IsRegisterToken(tokens[i]) && |tokens[i]| >= 3 ==>
               Enrollment(user, CourseOf(tokens[i])) in s.registrations
    ensures RegisterPass(s, user, tokens, imports, create) == StepResult(s, true)
  {
    if |tokens| > 0 {
      var init := tokens[..|tokens| - 1];
      assert forall i :: 0 <= i < |init| ==> init[i] == tokens[i];
      RegisterPassNoop(s, user, init, imports, create);
      var t := tokens[|tokens| - 1];
      if IsRegisterToken(t) { TaggedTokenLength(t); }
    }
  }

  /** After a failure, later tokens have no effect. */
  lemma {:induction false} FailureIsFinal(s: Store, user: string, a: seq<string>, b: seq<string>,
                                          imports: map<string, ActivityTree>, create: GlobalObjsEffect)
    requires !RegisterPass(s, user, a, imports, create).ok
    ensures RegisterPass(s, user, a + b, imports, create) == RegisterPass(s, user, a, imports, create)
  {
    if |b| > 0 {
      FailureIsFinal(s, user, a, b[..|b| - 1], imports, create);
      assert (a + b)[..|a + b| - 1] == a + b[..|b| - 1];
    } else {
      assert a + b == a;
    }
  }

  /** A failure at token `i` is the result of the whole loop. */
  lemma FailureStopsPass(s: Store, user: string, tokens: seq<string>, i: nat,
                         imports: map<string, ActivityTree>, create: GlobalObjsEffect)
    requires i < |tokens| && !RegisterPass(s, user, tokens[..i + 1], imports, create).ok
    ensures RegisterPass(s, user, tokens, imports, create) == RegisterPass(s, user, tokens[..i + 1], imports, create)
  {
    FailureIsFinal(s, user, tokens[..i + 1], tokens[i + 1..], imports, create);
    assert tokens[..i + 1] + tokens[i + 1..] == tokens;
  }

  /** The loop cannot fail when every course a register token names has an imported template. */
  lemma {:induction false} RegisterPassSucceeds(s: Store, user: string, tokens: seq<string>,
                                                imports: map<string, ActivityTree>, create: GlobalObjsEffect)
    requires forall i :: 0 <= i < |tokens| && IsRegisterToken(tokens[i]) && |tokens[i]| >= 3 ==>
               CourseOf(tokens[i]) in imports
    ensures RegisterPass(s, user, tokens, imports, create).ok
  {
    if |tokens| > 0 {
      var init := tokens[..|tokens| - 1];
      assert forall i :: 0 <= i < |init| ==> init[i] == tokens[i];
      RegisterPassSucceeds(s, user, init, imports, create);
      var t := tokens[|tokens| - 1];
      if IsRegisterToken(t) { TaggedTokenLength(t); }
    }
  }

  /**
   * A failed loop names its culprit: a register token whose course has no
   * imported template, and whose registration and status rows were
   * inserted and stay.
   */
  lemma {:induction false} RegisterPassFailure(s: Store, user: string, tokens: seq<string>,
                                               imports: map<string, ActivityTree>, create: GlobalObjsEffect)
    requires !RegisterPass(s, user, tokens, imports, create).ok
    ensures var p := RegisterPass(s, user, tokens, imports, create);
      exists i :: 0 <= i < |tokens| && IsRegisterToken(tokens[i]) && |tokens[i]| >= 3
        && CourseOf(tokens[i]) !in imports
        && Enrollment(user, CourseOf(tokens[i])) in p.store.registrations
        && Enrollment(user, CourseOf(tokens[i])) in p.store.statuses
  {
    var init := tokens[..|tokens| - 1];
    var t := tokens[|tokens| - 1];
    assert forall i :: 0 <= i < |init| ==> init[i] == tokens[i];
    if !RegisterPass(s, user, init, imports, create).ok {
      RegisterPassFailure(s, user, init, imports, create);
    } else {
      TaggedTokenLength(t);
      assert IsRegisterToken(tokens[|tokens| - 1]);
    }
  }

  /**
   * Every pair the loop newly registers belongs to the learner and has its
   * status row, its directory, and a tree copied from its course's template
   * and bound to the learner.
   */
  lemma {:induction false} RegisterPassFresh(s: Store, user: string, tokens: seq<string>,
                                             imports: map<string, ActivityTree>, create: GlobalObjsEffect)
    requires RegisterPass(s, user, tokens, imports, create).ok
    ensures var p := RegisterPass(s, user, tokens, imports, create).store;
      forall e :: e in p.registrations && e !in s.registrations ==>
        && e.user == user && e.course in imports
        && e in p.statuses && e in p.courseDirs
        && e in p.trees && p.trees[e] == Bind(imports[e.course], user)
  {
    if |tokens| > 0 {
      var init := tokens[..|tokens| - 1];
      RegisterPassFresh(s, user, init, imports, create);
      var t := tokens[|tokens| - 1];
      if IsRegisterToken(t) { TaggedTokenLength(t); }
    }
  }

  /**
   * The converse of routing: every pair the loop newly registers, whether
   * or not the loop completes, belongs to the learner, is named by a
   * register token, and has the key-only status row registration inserts.
   */
  lemma {:induction false} RegisterPassNamed(s: Store, user: string, tokens: seq<string>,
                                             imports: map<string, ActivityTree>, create: GlobalObjsEffect)
    ensures var p := RegisterPass(s, user, tokens, imports, create).store;
      forall e :: e in p.registrations && e !in s.registrations ==>
        && e.user == user
        && (exists i :: 0 <= i < |tokens| && IsRegisterToken(tokens[i]) && |tokens[i]| >= 3 && CourseOf(tokens[i]) == e.course)
        && e in p.statuses && p.statuses[e] == NewStatus
  {
    if |tokens| > 0 {
      var init := tokens[..|tokens| - 1];
      RegisterPassNamed(s, user, init, imports, create);
      assert forall i :: 0 <= i < |init| ==> init[i] == tokens[i];
      var t := tokens[|tokens| - 1];
      if IsRegisterToken(t) { TaggedTokenLength(t); }
    }
  }

  /** One token leaves every pair that was already registered as it was. */
  lemma RegisterTokenFrame(q: Store, user: string, t: string,
                           imports: map<string, ActivityTree>, create: GlobalObjsEffect, e: Enrollment)
    requires e in q.registrations
    ensures var p := RegisterToken(q, user, t, imports, create).store;
      e in p.registrations && SameAt(q, p, e)
  {
    if IsRegisterToken(t) { TaggedTokenLength(t); }
  }

  /**
   * The loop fails at token `i`, leaving store `p`: the tokens before `i`
   * completed (store `q`) and token `i` did not. Token `i` is a register
   * token for a course with no template whose pair was not registered; its
   * registration row and key-only status row stay in `p`, and every pair
   * registered in `q` keeps its registration, status row, tree and
   * directory.
   */
  ghost predicate FailsAt(s: Store, user: string, tokens: seq<string>,
                          imports: map<string, ActivityTree>, create: GlobalObjsEffect, i: int, p: Store)
  {
    && 0 <= i < |tokens|
    && RegisterPass(s, user, tokens[..i], imports, create).ok
    && !RegisterPass(s, user, tokens[..i + 1], imports, create).ok
    && IsRegisterToken(tokens[i]) && |tokens[i]| >= 3
    && CourseOf(tokens[i]) !in imports
    && var q := RegisterPass(s, user, tokens[..i], imports, create).store;
       var failed := Enrollment(user, CourseOf(tokens[i]));
       && failed !in q.registrations
       && failed in p.registrations && failed in p.statuses && p.statuses[failed] == NewStatus
       && forall e :: e in q.registrations ==> e in p.registrations && SameAt(q, p, e)
  }

  /** Only one token can be the one the loop fails at. */
  lemma FailsAtUnique(s: Store, user: string, tokens: seq<string>,
                      imports: map<string, ActivityTree>, create: GlobalObjsEffect, i: int, j: int, p: Store)
    requires FailsAt(s, user, tokens, imports, create, i, p)
    requires FailsAt(s, user, tokens, imports, create, j, p)
    ensures i == j
  {
    if i < j {
      assert tokens[..i + 1] + tokens[i + 1..j] == tokens[..j];
      FailureIsFinal(s, user, tokens[..i + 1], tokens[i + 1..j], imports, create);
    } else if j < i {
      assert tokens[..j + 1] + tokens[j + 1..i] == tokens[..i];
      FailureIsFinal(s, user, tokens[..j + 1], tokens[j + 1..i], imports, create);
    }
  }

  /** A failed loop undoes nothing: it fails at one token, as `FailsAt` describes, in its own final store. */
  lemma {:induction false} RegisterPassKeepsPrefix(s: Store, user: string, tokens: seq<string>,
                                                   imports: map<string, ActivityTree>, create: GlobalObjsEffect)
    requires !RegisterPass(s, user, tokens, imports, create).ok
    ensures exists i :: FailsAt(s, user, tokens, imports, create, i, RegisterPass(s, user, tokens, imports, create).store)
  {
    var n := |tokens|;
    var init := tokens[..n - 1];
    var p := RegisterPass(s, user, tokens, imports, create).store;
    if !RegisterPass(s, user, init, imports, create).ok {
      RegisterPassKeepsPrefix(s, user, init, imports, create);
      var i :| FailsAt(s, user, init, imports, create, i, p);
      assert init[..i] == tokens[..i];
      assert init[..i + 1] == tokens[..i + 1];
      assert FailsAt(s, user, tokens, imports, create, i, p);
    } else {
      var q := RegisterPass(s, user, init, imports, create).store;
      var t := tokens[n - 1];
      forall e | e in q.registrations ensures e in p.registrations && SameAt(q, p, e) {
        RegisterTokenFrame(q, user, t, imports, create, e);
      }
      assert tokens[..n - 1] == init;
      assert tokens[..n] == tokens;
      assert IsRegisterToken(t);
      TaggedTokenLength(t);
      assert FailsAt(s, user, tokens, imports, create, n - 1, p);
    }
  }

  // ---------------------------------------------------------------------
  // The unregistration loop

  /** `e` is a pair the loop over `ids` tears down: registered, of this learner, and queued. */
  ghost predicate TornDown(s: Store, user: string, ids: seq<string>, e: Enrollment)
  {
    e.user == user && e.course in ids && e in s.registrations
  }

  /** `e`'s status row, tree and directory are the same in both stores. */
  ghost predicate SameAt(s: Store, r: Store, e: Enrollment)
  {
    && (e in s.statuses <==> e in r.statuses)
    && (e in s.statuses ==> s.statuses[e] == r.statuses[e])
    && (e in s.trees <==> e in r.trees)
    && (e in s.trees ==> s.trees[e] == r.trees[e])
    && (e in s.courseDirs <==> e in r.courseDirs)
  }

  /**
   * What the unregistration loop does: every queued pair that was
   * registered loses its registration row, status row, tree, directory
   * and course-scoped objectives; every other row, file and catalog entry
   * is as it was. Queued pairs that were not registered are skipped.
   */
  lemma {:induction false} UnregisterAllEffect(s: Store, user: string, ids: seq<string>)
    ensures var r := UnregisterAll(s, user, ids);
      && (forall e :: e in r.registrations <==> e in s.registrations && !(e.user == user && e.course in ids))
      && (forall e :: TornDown(s, user, ids, e) ==> e !in r.statuses && e !in r.trees && e !in r.courseDirs)
      && (forall e :: !TornDown(s, user, ids, e) ==> SameAt(s, r, e))
      && (forall o :: o in r.objectives <==>
            o in s.objectives && !TornDown(s, user, ids, Enrollment(o.learnerID, o.scopeID)))
      && r.catalog == s.catalog
  {
    if |ids| > 0 {
      var init := ids[..|ids| - 1];
      var c := ids[|ids| - 1];
      assert ids == init + [c];
      UnregisterAllEffect(s, user, init);
      var m := UnregisterAll(s, user, init);
      var r := UnregisterCourse(m, user, c);
      assert forall x :: x in ids <==> x in init || x == c;
      forall e ensures TornDown(s, user, ids, e) <==> TornDown(s, user, init, e) || (e == Enrollment(user, c) && e in m.registrations) {
      }
    }
  }

  /** Unregistering pairs none of which is registered changes nothing. */
  lemma {:induction false} UnregisterAllNoop(s: Store, user: string, ids: seq<string>)
    requires forall i :: 0 <= i < |ids| ==> Enrollment(user, ids[i]) !in s.registrations
    ensures UnregisterAll(s, user, ids) == s
  {
    if |ids| > 0 {
      UnregisterAllNoop(s, user, ids[..|ids| - 1]);
    }
  }

  // ---------------------------------------------------------------------
  // The whole batch

  /** A batch whose queue is empty and whose registrations all took effect changes nothing when repeated. */
  lemma RegistrationIdempotent(s: Store, user: string, tokens: seq<string>,
                               imports: map<string, ActivityTree>, create: GlobalObjsEffect)
    requires forall i :: 0 <= i < |tokens| ==> !IsUnregisterToken(tokens[i])
    requires UpdateReg(s, user, tokens, imports, create).ok
    ensures var r := UpdateReg(s, user, tokens, imports, create).store;
      UpdateReg(r, user, tokens, imports, create) == StepResult(r, true)
  {
    QueueEmpty(tokens);
    var r := UpdateReg(s, user, tokens, imports, create).store;
    RegisterPassGrows(s, user, tokens, imports, create);
    RegisterPassNoop(r, user, tokens, imports, create);
  }

  /**
   * Unregistration runs after every registration: a course named by an
   * unregister token ends up unregistered wherever its tokens sit in the
   * list, and if it was registered before the batch or by the batch, its
   * status row, tree, directory and course-scoped objectives are gone too.
   * Global objectives (scope "") are untouched.
   */
  lemma UnregisterWins(s: Store, user: string, tokens: seq<string>, c: string,
                       imports: map<string, ActivityTree>, create: GlobalObjsEffect)
    requires UpdateReg(s, user, tokens, imports, create).ok
    requires c in Queue(tokens)
    ensures var r := UpdateReg(s, user, tokens, imports, create).store;
      var e := Enrollment(user, c);
      && e !in r.registrations
      && ((e in s.registrations || exists i :: 0 <= i < |tokens| && IsRegisterToken(tokens[i]) && |tokens[i]| >= 3 && CourseOf(tokens[i]) == c) ==>
            e !in r.statuses && e !in r.trees && e !in r.courseDirs
            && forall o :: o in r.objectives ==> !(o.learnerID == user && o.scopeID == c))
  {
    var p := RegisterPass(s, user, tokens, imports, create);
    RegisterPassGrows(s, user, tokens, imports, create);
    UnregisterAllEffect(p.store, user, Queue(tokens));
  }

  /** Rows of the global scope, and rows of other learners, survive any batch that completes. */
  lemma GlobalObjectivesSurvive(s: Store, user: string, tokens: seq<string>, o: Objective,
                                imports: map<string, ActivityTree>, create: GlobalObjsEffect)
    requires UpdateReg(s, user, tokens, imports, create).ok
    requires o in RegisterPass(s, user, tokens, imports, create).store.objectives
    requires o.scopeID == "" || o.learnerID != user
    ensures o in UpdateReg(s, user, tokens, imports, create).store.objectives
  {
    var p := RegisterPass(s, user, tokens, imports, create);
    UnregisterAllEffect(p.store, user, Queue(tokens));
  }

  /**
   * A course named by a register token and by no unregister token ends up
   * registered; if it was not registered before the batch, it now has a
   * status row, a directory and its template's tree bound to the learner.
   */
  lemma RegisterWins(s: Store, user: string, tokens: seq<string>, i: int,
                     imports: map<string, ActivityTree>, create: GlobalObjsEffect)
    requires UpdateReg(s, user, tokens, imports, create).ok
    requires 0 <= i < |tokens| && IsRegisterToken(tokens[i]) && |tokens[i]| >= 3
    requires CourseOf(tokens[i]) !in Queue(tokens)
    ensures var r := UpdateReg(s, user, tokens, imports, create).store;
      var c := CourseOf(tokens[i]);
      var e := Enrollment(user, c);
      && e in r.registrations
      && (e !in s.registrations ==>
            c in imports && e in r.statuses && e in r.courseDirs
            && e in r.trees && r.trees[e] == Bind(imports[c], user))
  {
    var p := RegisterPass(s, user, tokens, imports, create);
    RegisterPassGrows(s, user, tokens, imports, create);
    RegisterPassFresh(s, user, tokens, imports, create);
    UnregisterAllEffect(p.store, user, Queue(tokens));
    var e := Enrollment(user, CourseOf(tokens[i]));
    assert !TornDown(p.store, user, Queue(tokens), e);
  }

  /**
   * A failed batch returns false, runs no unregistration (no registration
   * row disappears), and stops at the one token it fails at: the rows of
   * every pair registered before that token stay, and so do the failing
   * course's registration row and key-only status row.
   */
  lemma BatchFailure(s: Store, user: string, tokens: seq<string>,
                     imports: map<string, ActivityTree>, create: GlobalObjsEffect)
    requires !UpdateReg(s, user, tokens, imports, create).ok
    ensures var r := UpdateReg(s, user, tokens, imports, create).store;
      && s.registrations <= r.registrations
      && exists i :: FailsAt(s, user, tokens, imports, create, i, r)
  {
    RegisterPassGrows(s, user, tokens, imports, create);
    RegisterPassKeepsPrefix(s, user, tokens, imports, create);
  }

  // ---------------------------------------------------------------------
  // Reset

  /** A token that is exactly `tag` followed by a course name carrying neither tag. */
  predicate PlainToken(t: string, tag: string)
  {
    |tag| == 10 && |t| >= 10 && t[..10] == tag && !Contains(t[10..], RegisterTag) && !Contains(t[10..], UnregisterTag)
  }

  /**
   * A plain unregister token routes only to the unregister queue, and the
   * reset rewrite turns it into a plain register token for the same course.
   */
  lemma PlainTokenRewrite(t: string)
    requires PlainToken(t, UnregisterTag)
    ensures IsUnregisterToken(t) && !IsRegisterToken(t)
    ensures var t' := ReplaceFirst(t, "RE_", "UN_");
      PlainToken(t', RegisterTag) && IsRegisterToken(t') && !IsUnregisterToken(t')
      && CourseOf(t') == CourseOf(t)
  {
    var x := t[10..];
    assert t == UnregisterTag + x;
    TagPrefixRoutes(UnregisterTag, RegisterTag, x);
    var t' := RewriteUnregisterTag(x);
    assert t'[..10] == RegisterTag && t'[10..] == x;
    TagPrefixRoutes(RegisterTag, UnregisterTag, x);
  }

  /** A token made of one tag and a rest that holds neither tag carries that tag and not the other. */
  lemma TagPrefixRoutes(tag: string, other: string, x: string)
    requires (tag == UnregisterTag && other == RegisterTag) || (tag == RegisterTag && other == UnregisterTag)
    requires !Contains(x, other)
    ensures Contains(tag + x, tag) && !Contains(tag + x, other)
  {
    assert (tag + x)[..|tag|] == tag;
    assert MatchAt(tag + x, tag, 0);
    assert forall i :: 0 <= i < |tag| ==> tag[i] != other[0];
    ContainsAfterPrefix(tag, x, other);
  }

  /** Replacing the first `RE_` of an unregister token gives the register token for the same course. */
  lemma RewriteUnregisterTag(x: string) returns (t': string)
    ensures t' == ReplaceFirst(UnregisterTag + x, "RE_", "UN_")
    ensures t' == RegisterTag + x
    ensures t'[3..] == (UnregisterTag + x)[3..]
  {
    var t := UnregisterTag + x;
    assert t == "RE_" + t[3..];
    ReplaceFirstAtStart("RE_", "UN_", t[3..]);
    t' := ReplaceFirst(t, "RE_", "UN_");
    assert t' == "UN_" + t[3..];
  }

  /**
   * Resetting a list of plain unregister tokens whose courses all have
   * imported templates succeeds, and every listed course ends up
   * registered with a status row and a fresh tree bound to the learner.
   */
  lemma ResetReRegisters(s: Store, user: string, tokens: seq<string>,
                         imports: map<string, ActivityTree>, create: GlobalObjsEffect)
    requires forall i :: 0 <= i < |tokens| ==>
               PlainToken(tokens[i], UnregisterTag) && CourseOf(tokens[i]) in imports
    ensures var r := Reset(s, user, tokens, imports, create);
      && r.ok
      && forall i :: 0 <= i < |tokens| ==>
           && |tokens[i]| >= 10
           && var e := Enrollment(user, CourseOf(tokens[i]));
           && e in r.store.registrations && e in r.store.statuses && r.store.statuses[e] == NewStatus
           && e in r.store.trees && r.store.trees[e] == Bind(imports[CourseOf(tokens[i])], user)
  {
    forall i | 0 <= i < |tokens| { PlainTokenRewrite(tokens[i]); }
    // first pass: nothing to register, every listed course unregistered
    RegisterPassNoop(s, user, tokens, imports, create);
    var queue := Queue(tokens);
    var s1 := UnregisterAll(s, user, queue);
    assert UpdateReg(s, user, tokens, imports, create) == StepResult(s1, true);
    UnregisterAllEffect(s, user, queue);
    forall i | 0 <= i < |tokens| ensures CourseOf(tokens[i]) in queue {
      QueueMembership(tokens, CourseOf(tokens[i]));
    }
    // second pass: every listed course registered afresh, nothing queued
    var tokens2 := ResetTokens(tokens);
    QueueEmpty(tokens2);
    RegisterPassSucceeds(s1, user, tokens2, imports, create);
    var p2 := RegisterPass(s1, user, tokens2, imports, create).store;
    assert Reset(s, user, tokens, imports, create) == StepResult(p2, true);
    RegisterPassNamed(s1, user, tokens2, imports, create);
    forall i | 0 <= i < |tokens|
      ensures var e := Enrollment(user, CourseOf(tokens[i]));
        && e in p2.registrations
        && e in p2.statuses && p2.statuses[e] == NewStatus
        && e in p2.trees
        && p2.trees[e] == Bind(imports[CourseOf(tokens[i])], user)
    {
      assert CourseOf(tokens2[i]) == CourseOf(tokens[i]);
      RegisterWins(s1, user, tokens2, i, imports, create);
      assert Enrollment(user, CourseOf(tokens[i])) !in s1.registrations;
    }
  }
}
