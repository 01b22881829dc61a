# Course service of the sample run-time environment, in Dafny

This project models the course service of the SCORM sample run-time
environment (`CourseService.java`): the object that registers and
unregisters learners for courses, resets a learner's courses, deactivates
courses in the catalog, lists the catalog for a learner, and administers
learning objectives (adding global objectives, listing a course's
objectives, merging a learner's global objectives into a caller's list,
and the reset/delete requests of the objectives page).

The databases and the file system become plain state of one Dafny class,
`Service.CourseService`:

- the registration table (UserCourseInfo) is a set of (learner, course) pairs;
- the course-status table (CourseStatus) is a map from those pairs to status rows;
- the objectives table (Objectives) is a sequence of rows in table order;
- each learner's course directory and the activity tree serialized into it are a set and a map keyed by the pair;
- the catalog (CourseInfo.Active) is a map from course ID to the active flag;
- the templates of imported courses (CourseImports/<course>/serialize.obj) are a constant map;
- the `mUserID` field is the field `userID`, overwritten by the operations that overwrite it in the source.

Every state-changing method is proved against a specification function on
a `Store` value (`ensures StepResult(State(), ok) == UpdateReg(old(State()), ...)`),
and the properties of the service are lemmas about those functions. The
modules are:

- `JavaStrings`: the `java.lang.String` operations the service relies on
  (`indexOf`, `lastIndexOf`, `startsWith`, `replaceFirst` with a literal
  pattern, `split` around one character with Java's dropping of trailing
  empty pieces, `trim`);
- `Records`: rows, value objects, the store, and the code outside the
  service that it calls (the objective-ID codec and the creation of global
  objective rows), passed in as function values;
- `Registration`: `updateRegCourses` and `resetCourses` as functions and
  their properties;
- `Objectives`: `addObj`, `getObjs` and `editObjs`;
- `GlobalObjectives`: the merge `getGlobalObjs` performs;
- `Listings`: `deleteCourse`, the course listings and `getCommentVector`;
- `Service`: the `CourseService` class and the caller's objective vector.

Where the documented intent of the service and the code disagree, the
model follows the code:

- the documented intent is that all unregistrations of a batch come before
  its registrations; the code registers inline while it walks the list and
  unregisters the queued courses afterwards (`Registration.RegisterWins`,
  `Registration.UnregisterWins`);
- the documented intent is that a failing course is recorded and the rest
  of the batch goes on; the code returns "false" at the first failure and
  skips everything after it, queued unregistrations included, without
  undoing the rows already inserted (`Registration.FailureIsFinal`,
  `Registration.BatchFailure`);
- the documented intent is that reset unregisters everything and then
  registers it again; the code's first pass runs the list as given (a
  "RE_" token unregisters), and the second pass runs it with the first
  "RE_" of each token turned into "UN_" (`Registration.ResetReRegisters`);
- the documented repair of partial states (a registration row without its
  directory and the reverse) has no counterpart in the code and is not
  modelled.

`getGlobalObjs` is modelled as written: its `foundObjective` flag is never
cleared, so once one global row matches an objective already in the
vector, no later row is added, even one with a new objective ID
(`GlobalObjectives.MergeSticky`, `GlobalObjectives.StickyDropsNewObjective`).

## Model

| member | source | states |
|---|---|---|
| JavaStrings.IndexOf | src/org/adl/samplerte/server/CourseService.java:667-672 | the result is -1 exactly when the pattern occurs nowhere, and otherwise the first index where it occurs |
| JavaStrings.LastIndexOf | src/org/adl/samplerte/server/CourseService.java:1353-1363 | the result is -1 exactly when the character is absent, and otherwise an index holding it with no occurrence after it |
| JavaStrings.ReplaceFirstAtStart | src/org/adl/samplerte/server/CourseService.java:830 | replacing the first occurrence of a target the string starts with swaps exactly that prefix |
| JavaStrings.ReplaceFirstAbsent | src/org/adl/samplerte/server/CourseService.java:830 | a string without the target is returned unchanged |
| JavaStrings.DropTrailingEmpty | src/org/adl/samplerte/server/CourseService.java:1411 | the result is a prefix of the pieces, ends in a non-empty piece, and only empty pieces were dropped |
| JavaStrings.JavaSplit | src/org/adl/samplerte/server/CourseService.java:1411 | no piece contains the separator |
| JavaStrings.JoinJavaSplit | src/org/adl/samplerte/server/CourseService.java:1411 | rejoining the pieces with the separator gives the input back without its trailing separators |
| JavaStrings.Trim | src/org/adl/samplerte/server/CourseService.java:1417 | the result is the infix of the input that neither starts nor ends with a character up to the space and around which every character is up to the space |
| JavaStrings.TrimUnique | src/org/adl/samplerte/server/CourseService.java:1417 | the contract of `Trim` determines its result: any infix meeting it is `Trim` of the input |
| JavaStrings.TrimIdempotent | src/org/adl/samplerte/server/CourseService.java:1417 | trimming twice is trimming once |
| JavaStrings.TrimKeepsOut | src/org/adl/samplerte/server/CourseService.java:1417 | trimming introduces no character that was not there |
| Records.Filter | src/org/adl/samplerte/server/CourseService.java:776-778 | a row is kept exactly when it was there and satisfies the condition, and nothing is added |
| Records.FilterCounts | src/org/adl/samplerte/server/CourseService.java:776-778 | every copy of a kept row survives and no copy of a dropped row does |
| Records.FilterConcat | src/org/adl/samplerte/server/CourseService.java:776-778 | the kept rows stay in table order: filtering a table split in two gives the kept rows of the first part followed by those of the second |
| Records.ScopeRows | src/org/adl/samplerte/server/CourseService.java:1191-1196 | the selected rows are exactly the table's rows of that learner in that scope |
| Registration.TaggedTokenLength | src/org/adl/samplerte/server/CourseService.java:667-676 | a token carrying either tag has at least ten characters, so its course ID keeps at least seven |
| Registration.DeleteScope | src/org/adl/samplerte/server/CourseService.java:776-778 | a row survives exactly when it is not of that learner in that course scope |
| Registration.Queue | src/org/adl/samplerte/server/CourseService.java:667-670 | at most one queued ID per token, and every queued course ID is an "RE_Course-" token of the list minus its first three characters |
| Registration.QueueMembership | src/org/adl/samplerte/server/CourseService.java:667-670 | a course is queued for unregistration exactly when some token containing "RE_Course-" names it |
| Registration.QueueEmpty | src/org/adl/samplerte/server/CourseService.java:667-670 | a list without "RE_Course-" tokens queues nothing |
| Registration.RegisterPassGrows | src/org/adl/samplerte/server/CourseService.java:672-747 | the registration loop only adds registrations, never touches the catalog, and if it succeeds every "UN_Course-" token's course is registered |
| Registration.RegisterPassFrame | src/org/adl/samplerte/server/CourseService.java:672-747 | a pair registered before the loop, or another learner's pair, keeps its registration row, status row, tree and directory unchanged |
| Registration.RegisterPassObjectives | src/org/adl/samplerte/server/CourseService.java:712-721 | objective rows change only through `createGlobalObjs`: with no template declaring global objectives the table is untouched |
| Registration.RegisterPassNoop | src/org/adl/samplerte/server/CourseService.java:680-687 | register tokens for pairs already registered change nothing and succeed |
| Registration.FailureIsFinal | src/org/adl/samplerte/server/CourseService.java:797-801 | after the first failure no later token has any effect |
| Registration.RegisterPassSucceeds | src/org/adl/samplerte/server/CourseService.java:689-705 | the loop succeeds whenever every course to register has an imported template |
| Registration.RegisterPassFailure | src/org/adl/samplerte/server/CourseService.java:689-705 | a failing loop names a register token whose course has no template, and that pair's registration and status rows stay in place |
| Registration.RegisterPassFresh | src/org/adl/samplerte/server/CourseService.java:689-743 | every newly registered pair is the user's, has a template, a status row, a directory, and a stored tree equal to the template bound to the user |
| Registration.RegisterPassNamed | src/org/adl/samplerte/server/CourseService.java:672-701 | completed or not, the loop newly registers only the user's pairs named by a "UN_Course-" token, each with the key-only status row |
| Registration.RegisterPassKeepsPrefix | src/org/adl/samplerte/server/CourseService.java:689-705 | a failed loop fails at one token `i`: the tokens before it complete and token `i` does not; token `i` registers a course that has no template and was not yet registered, and its registration row and key-only status row stay; every pair registered before token `i` keeps its registration, status row, tree and directory |
| Registration.FailsAtUnique | src/org/adl/samplerte/server/CourseService.java:689-705 | the token a loop fails at is unique, because nothing runs after the first failure |
| Registration.UnregisterAllEffect | src/org/adl/samplerte/server/CourseService.java:750-787 | exactly the queued registered pairs lose their registration row, status row, tree, directory and course-scoped objectives; every other pair and every other objective row is unchanged, and so is the catalog |
| Registration.UnregisterAllNoop | src/org/adl/samplerte/server/CourseService.java:762-767 | unregistering courses the user is not registered for changes nothing |
| Registration.RegistrationIdempotent | src/org/adl/samplerte/server/CourseService.java:680-687 | running a successful batch of register requests a second time changes nothing |
| Registration.UnregisterWins | src/org/adl/samplerte/server/CourseService.java:662-787 | a course queued for unregistration ends unregistered, and, if it was registered before or in the batch, without status row, tree, directory or course-scoped objectives |
| Registration.GlobalObjectivesSurvive | src/org/adl/samplerte/server/CourseService.java:774-778 | unregistration never removes a global objective (scope "") nor another learner's row |
| Registration.RegisterWins | src/org/adl/samplerte/server/CourseService.java:678-747 | a registered course not also queued for unregistration ends registered, and if newly so with its status row, directory and bound tree |
| Registration.BatchFailure | src/org/adl/samplerte/server/CourseService.java:797-801 | a failed batch runs no unregistration and keeps every registration that existed before it; it stops at the one token it fails at, a register token for an unregistered course with no template, whose registration row and key-only status row stay, and every pair registered by the tokens before it keeps its status row, tree and directory |
| Registration.PlainTokenRewrite | src/org/adl/samplerte/server/CourseService.java:830 | rewriting a plain "RE_Course-" token yields a "UN_Course-" token for the same course that is no longer an unregister token |
| Registration.ResetReRegisters | src/org/adl/samplerte/server/CourseService.java:813-837 | resetting a list of unregister tokens for imported courses succeeds and leaves each course registered with a fresh key-only status row and a fresh tree bound to the user |
| Objectives.AddObjectiveEffect | src/org/adl/samplerte/server/CourseService.java:1101-1163 | a duplicate (encoded ID, user, scope "") is refused with "dupobjid" and nothing changes; otherwise exactly one global row is appended with the normalised status values and every other value as given |
| Objectives.AddObjectiveKeepsKeysUnique | src/org/adl/samplerte/server/CourseService.java:1128-1146 | adding keeps global rows unique per (objective ID, learner), and adding the same record again is refused |
| Objectives.CourseObjectives | src/org/adl/samplerte/server/CourseService.java:1282-1302 | the empty course ID yields nothing; otherwise exactly the records of the learner's rows in the course's scope, one per row, all for that learner |
| Objectives.ParseNameValueRoundTrip | src/org/adl/samplerte/server/CourseService.java:1353-1366 | "objID;learner:action" splits back into its three parts |
| Objectives.ParseEditRoundTrip | src/org/adl/samplerte/server/CourseService.java:1347-1366 | the page's "n~objID;learner:action" parameter parses back into that request |
| Objectives.ParseEditSubmit | src/org/adl/samplerte/server/CourseService.java:1361 | the submit button's parameter is recognised and skipped |
| Objectives.ResetMatching | src/org/adl/samplerte/server/CourseService.java:1331-1333 | every row with that objective ID and learner has its seven status columns set to "unknown"; every other row is unchanged; order and length are kept |
| Objectives.DeleteMatching | src/org/adl/samplerte/server/CourseService.java:1335 | a row survives exactly when it does not have that objective ID and learner |
| Objectives.EditIdempotent | src/org/adl/samplerte/server/CourseService.java:1368-1385 | a second reset, or a second delete, of the same objective changes nothing |
| Objectives.EditFailureIsFinal | src/org/adl/samplerte/server/CourseService.java:1392-1396 | after a malformed parameter the later parameters have no effect |
| Objectives.EditLeavesOthers | src/org/adl/samplerte/server/CourseService.java:1340-1385 | rows of a learner no parameter names survive unchanged |
| GlobalObjectives.MergeFromGrows | src/org/adl/samplerte/server/CourseService.java:1204-1236 | the vector only grows, by rows, and a set `found` flag stays set |
| GlobalObjectives.MergeKeepsPrefix | src/org/adl/samplerte/server/CourseService.java:1183-1236 | the caller's elements remain as a prefix and every added element is a global row |
| GlobalObjectives.MergeFirstIntoEmpty | src/org/adl/samplerte/server/CourseService.java:1220-1236 | into an empty vector the first global row is always added |
| GlobalObjectives.MergeFromFound | src/org/adl/samplerte/server/CourseService.java:1222-1236 | once the flag is set over a non-empty vector, no further row is added |
| GlobalObjectives.MergeSticky | src/org/adl/samplerte/server/CourseService.java:1222-1236 | from the first row whose ID is already in the vector on, no row is added, whatever its ID |
| GlobalObjectives.MergeIdempotent | src/org/adl/samplerte/server/CourseService.java:1181-1248 | merging the same global rows into the merged vector again adds nothing |
| GlobalObjectives.MergeAllNew | src/org/adl/samplerte/server/CourseService.java:1204-1236 | when every row's ID is new and distinct, every row is added in order |
| GlobalObjectives.StickyDropsNewObjective | src/org/adl/samplerte/server/CourseService.java:1222-1236 | with `a` in the vector, rows `a` then `b` (new ID) leave the vector as just `a` |
| Listings.DeactivateEffect | src/org/adl/samplerte/server/CourseService.java:527-538 | exactly the catalog courses named by a "RE_" or "UN_" selection (prefix dropped) become inactive; no course is added and every other entry is unchanged |
| Listings.DeactivateIdempotent | src/org/adl/samplerte/server/CourseService.java:527-538 | deleting the same selection twice is deleting it once |
| Listings.RegisteredTo | src/org/adl/samplerte/server/CourseService.java:563-584 | exactly the courses the user holds a registration row for |
| Listings.UnregisteredFilter | src/org/adl/samplerte/server/CourseService.java:187-195 | a course is kept exactly when it was listed and is not among the registered IDs; distinct listings stay distinct |
| Listings.Managed | src/org/adl/samplerte/server/CourseService.java:139-171 | the listing is as long as the two listings together, and no course flagged registered follows one flagged unregistered |
| Listings.UnregisteredListing | src/org/adl/samplerte/server/CourseService.java:181-197 | the unregistered listing holds each active course the user is not registered for exactly once |
| Listings.ManagedFlags | src/org/adl/samplerte/server/CourseService.java:139-171 | every managed entry is active and flagged registered exactly when the user is registered for it |
| Listings.ManagedCovers | src/org/adl/samplerte/server/CourseService.java:139-171 | every active course appears in the managed listing |
| Listings.ManagedDistinct | src/org/adl/samplerte/server/CourseService.java:139-171 | no course appears twice in the managed listing |
| Listings.ManagedPartition | src/org/adl/samplerte/server/CourseService.java:139-171 | for a named user the managed listing holds each active course exactly once, flagged registered exactly when the user is registered for it |
| Listings.Comments | src/org/adl/samplerte/server/CourseService.java:1409-1422 | one comment per line of the split block |
| Listings.CommentsAreTrimmedLines | src/org/adl/samplerte/server/CourseService.java:1409-1422 | each comment is its line trimmed, holds no newline and is already trimmed; the lines rejoin to the block without trailing newlines |
| Listings.CommentsOfOneLine | src/org/adl/samplerte/server/CourseService.java:1411-1419 | a block without a newline, the empty block included, is one comment |
| Service.Enumerate | src/org/adl/samplerte/server/CourseService.java:250-264 | each element of the selected set is listed exactly once |
| Service.ObjectiveVector.constructor | src/org/adl/samplerte/server/CourseService.java:1183 | the vector holds the caller's elements |
| Service.CourseService.constructor | src/org/adl/samplerte/server/CourseService.java:95 | the service starts on the given store with `mUserID` empty |
| Service.CourseService.Register | src/org/adl/samplerte/server/CourseService.java:678-747 | one register request changes the store as `Registration.RegisterCourse` says, for `mUserID` |
| Service.CourseService.Unregister | src/org/adl/samplerte/server/CourseService.java:750-787 | one unregister request changes the store as `Registration.UnregisterCourse` says, for `mUserID` |
| Service.CourseService.RegisterAndQueue | src/org/adl/samplerte/server/CourseService.java:662-747 | the routing loop's store and verdict are those of `Registration.RegisterPass`, and on success its queue is `Registration.Queue` |
| Service.CourseService.RegisterParam | src/org/adl/samplerte/server/CourseService.java:672-747 | one parameter of the routing loop changes the store and gives the verdict `Registration.RegisterToken` says: only a "UN_Course-" token registers its course |
| Service.CourseService.UnregisterQueued | src/org/adl/samplerte/server/CourseService.java:750-787 | the unregistration loop's store is that of `Registration.UnregisterAll` |
| Service.CourseService.UpdateRegCourses | src/org/adl/samplerte/server/CourseService.java:607-804 | sets `mUserID` to the user; the new store and the result are those of `Registration.UpdateReg` |
| Service.CourseService.ResetCourses | src/org/adl/samplerte/server/CourseService.java:813-837 | the new store and the result are those of `Registration.Reset` |
| Service.CourseService.DeleteCourse | src/org/adl/samplerte/server/CourseService.java:514-551 | only the catalog changes, to `Listings.Deactivate` of the selection |
| Service.CourseService.AddObj | src/org/adl/samplerte/server/CourseService.java:1101-1173 | sets `mUserID` to the record's user; table, result and `mObjErr` are those of `Objectives.AddObjective`, nothing else changes |
| Service.CourseService.ScanVector | src/org/adl/samplerte/server/CourseService.java:1219-1231 | the inner scan clears `firstQueryEmpty` exactly when the vector is non-empty and sets `foundObjective` exactly when some element has the row's objective ID |
| Service.CourseService.GetGlobalObjs | src/org/adl/samplerte/server/CourseService.java:1181-1248 | returns the caller's own vector, now `GlobalObjectives.GlobalMerge` of its old elements and the user's global rows |
| Service.CourseService.SelectScope | src/org/adl/samplerte/server/CourseService.java:1284-1301 | the rows read are exactly the learner's rows in the given scope, converted one by one and kept in table order |
| Service.CourseService.GetObjs | src/org/adl/samplerte/server/CourseService.java:1256-1312 | sets `mUserID`; returns `Objectives.CourseObjectives`; the store is unchanged |
| Service.CourseService.ApplyRequest | src/org/adl/samplerte/server/CourseService.java:1361-1385 | only the objectives change, as `Objectives.ApplyEdit` says |
| Service.CourseService.EditObjs | src/org/adl/samplerte/server/CourseService.java:1319-1398 | only the objectives change, and they and the result are those of `Objectives.EditObjs` |
| Service.CourseService.GetCourses | src/org/adl/samplerte/server/CourseService.java:209-277 | sets `mUserID`; lists each course of `Listings.ListedCourses` exactly once, none flagged registered; the store is unchanged |
| Service.CourseService.GetRegCourses | src/org/adl/samplerte/server/CourseService.java:559-598 | sets `mUserID`; lists each course the user is registered for exactly once |
| Service.CourseService.GetUnregisteredCourses | src/org/adl/samplerte/server/CourseService.java:181-197 | leaves `mUserID` as the user; lists each active course the user is not registered for exactly once, none flagged registered |
| Service.CourseService.GetManagedCourses | src/org/adl/samplerte/server/CourseService.java:139-171 | the registered block comes before the unregistered block; for a named user lists each active course exactly once, flagged registered exactly when the user is registered for it |
| Service.CourseService.GetCommentVector | src/org/adl/samplerte/server/CourseService.java:1409-1422 | returns `Listings.Comments` of the block |

## Left out

- JDBC plumbing (connections, prepared statements, result sets, the two database handler classes): the tables are plain state.
- The `synchronized` blocks around single statements: the model is sequential.
- Exceptions other than a missing course template: a store or file-system error in any operation is not modelled. The source catches it and returns "false", or, for the listing and objective queries (`getCourses`, `getObjs`, `getGlobalObjs`), the vector as far as it was built, which can be partial (and for `getGlobalObjs` the caller's vector stays partly extended); `deleteCourse` therefore always reports success.
- The Objectives table's column order: the positional `INSERT INTO Objectives VALUES(?,...)` of `addObj` is read in the order objective ID, learner, satisfied, measure, scope, raw score, minimum, maximum, progress measure, completion (the fields of `Records.Objective`), so its fifth value `""` is the scope that marks a global objective; the table's declaration is not part of this model.
- `iPath` of `updateRegCourses` and `resetCourses`: the template directory is folded into the constant map of imported templates.
- The `ORDER BY` of `getCourses`: a listing comes back in an unspecified order (`Service.Enumerate`), and only its contents are stated; the order of rows returned by the objective queries is taken to be table order.
- The other columns of the course listing (title, import time, start, table of contents, suspend flag) and of the course-status row: only the course ID and the registered flag, and the status row's key, are modelled.
- Java serialization of the activity tree: a tree is its learner ID, scope ID and global objective list.
- `ADLSeqUtilities.createGlobalObjs`, the objective-ID codec (`encodeObjectiveID`, `decodeObjectiveID`, `processWhitespace`) and `RTEFileHandler.deleteCourseFiles`: their source is not part of this model; the first two are function values supplied with the service, and deleting course files is removing the learner's directory entry.
- `Service.CourseService.GetGlobalObjs`: a null vector (which makes the source fail on its first add and return null) is not modelled; the vector is always present.
- `Service.CourseService.GetManagedCourses`: states nothing about the listing for the empty user ID, for which the source lists every active course twice unless rows exist for that empty ID.
- `Service.CourseService.AddObj`: the update of the value object's `mObjErr` field is returned as an out-parameter rather than written into the record.
- The "true"/"false" result strings are booleans.
- String positions: strings are sequences of Unicode characters, while Java's `indexOf`, `lastIndexOf` and `substring` count UTF-16 code units; the two differ only when a character outside the Basic Multilingual Plane comes before the position (for instance before a token's tag or a parameter's separators), and that case is not modelled.
- `importCourse`, `importMultipleCourses`, `ZipCopy`, `clearDatabase`, the recursive `deleteCourseFiles(File)`, `updateSCO` and the display queries (`getSCO`, `getSCOs`, `getName`, `showCourseStatus`): they are not part of the modelled core.
