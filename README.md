# Enrollment service rules, modelled in Dafny

This project models the request handlers of a course-enrollment web service
(a FastAPI application over DynamoDB, Redis and sqlite) as state and steps,
and proves the rules those handlers keep.

- **Students** enroll in a class named by a `{term}_{class}` slug. The handler
  checks, in order: the slug, that the class exists, that the student is not
  already enrolled, and whether a seat is free. With no free seat it goes on
  to the waitlist: the student must not be on it yet, must be on fewer than 3
  waitlists in the term, and the waitlist must hold fewer than 15. Students
  also drop a class, ask for their waitlist position, and leave a waitlist.
- **Instructors** read the roster, the waitlist (ranks 0 to 15) and the
  droplist of a class they teach. They can also drop a student
  administratively.
- **The registrar helper** builds the DynamoDB request dictionaries for
  enrollment periods, courses and classes.

The stores are values: DynamoDB tables are maps and sequences of items, a
Redis sorted set is a sequence of (name, score) members in rank order, and
the sqlite tables are sequences of rows. The enroll handler changes the
`DynamoDb` and `RedisDb` objects in place. The sqlite handlers change a
`Connection` whose `tables` field is what has been committed. Each handler is
proved equal to a specification function of the old state, and the
properties are lemmas about those functions.

As in the code, there are two waitlists and two droplists, kept apart.
Enroll and the instructor's waitlist read use the Redis sets; the position
and removal endpoints read the sqlite `waitlist` table, which enroll never
writes. Both drops append to the sqlite `droplist`; `get_droplist` reads the
DynamoDB droplist table.

Modules: `Decimal` (Python's `str(int)`), `Slug` (`str.split` and the slug
parse), `RegistrarHelper`, `Stores` (DynamoDB items, Redis sorted sets),
`Relational` (sqlite rows, the drop step, the position count),
`StudentRouter`, `InstructorRouter`, and `Wrappers` (an `Option` type).

Three facts about the code shape the model:

- Both drops catch only `sqlite3.IntegrityError`, so the model has just the
  integrity failure of the droplist INSERT (a 409). Other datastore errors
  are not caught by the handlers.
- `enrollment_helper` is not part of this model. Auto-enrollment is a flag
  and an opaque function of the committed tables and the class ids.
- The seat check compares the number of the class's enrollment items (the
  `class_enrollment` query) with `room_capacity`. It does not use the
  class's `enrollment_count` field. `SeatsConsistent` is the invariant that
  keeps the two equal.

## Model

| member | source | states |
|---|---|---|
| Slug.Split | enrollment_service/student_router.py:94 | `str.split` gives one more piece than there are separators, no piece holds one, and joining the pieces gives the string back |
| Slug.SplitJoin | enrollment_service/student_router.py:94 | splitting undoes a join of separator-free pieces |
| Slug.ParseClassTerm | enrollment_service/student_router.py:94-99 | a slug is accepted exactly when it has one underscore, and then it is `term + "_" + class` with neither part holding an underscore |
| Slug.ParseClassTermIsSplit | enrollment_service/student_router.py:94-99 | the parse accepts exactly when `split("_")` gives two parts, and returns those two parts |
| Slug.ParseClassTermOfFormat | enrollment_service/student_router.py:97 | every `{term}_{class}` slug built from underscore-free parts parses back to those parts |
| StudentRouter.EnrollRejectsBadSlug | enrollment_service/student_router.py:94-97 | enroll answers 400 exactly when the slug does not split into two parts, and then no store changes |
| Stores.EnrollmentSlugInjective | enrollment_service/student_router.py:116 | the enrollment key `{class}-{cwid}` that `EnrollmentSlug` builds names one (class, student) pair when the cwid is non-negative |
| Stores.WaitlistNameDistinct | enrollment_service/student_router.py:183 | the set name `{class}-{term}` that `WaitlistName` builds is distinct for distinct classes of one term, and for distinct terms of one class |
| Stores.AfterLastDashOfNumeral | enrollment_service/student_router.py:154 | the rendered cwid is exactly what follows the last dash of the enrollment key |
| Stores.ClassEnrollment | enrollment_service/student_router.py:131-134 | the `class_enrollment` query returns exactly the items of the (term, class), and no more items than the table has |
| Stores.ClassEnrollmentAppend | enrollment_service/student_router.py:145-159 | writing one item adds it to the query of its own class and to no other |
| StudentRouter.EnrollCheckOrder | enrollment_service/student_router.py:136-142 | a missing class is a 404; an existing `{class}-{cwid}` enrollment is a 409, and only when the class exists |
| StudentRouter.EnrollShapes | enrollment_service/student_router.py:136-217 | every request leaves both stores unchanged, takes one seat, or puts the student on the class's waitlist |
| StudentRouter.EnrollErrorsChangeNothing | enrollment_service/student_router.py:136-217 | every error response (status 400 or above) leaves both stores as they were |
| StudentRouter.EnrollTakesOneSeat | enrollment_service/student_router.py:145-179 | both directions: an existing class the student is not enrolled in, with fewer enrollment items than room capacity and a successful write, gives "enrolled"; and an enrollment happens only then, writes exactly the student's enrollment item, raises that class's count by 1, and changes nothing else |
| StudentRouter.EnrollKeepsSeatsConsistent | enrollment_service/student_router.py:145-179 | if every class's count equals its number of enrollment items and is within room capacity, enroll keeps it so |
| StudentRouter.EnrollWaitlistChecks | enrollment_service/student_router.py:183-190 | for an existing class the student is not enrolled in, with no free seat or a failed seat write: being on set `{class}-{term}` is a 409, and otherwise a participation count of 3 or more is a 403 (both directions) |
| StudentRouter.EnrollWaitlistPlacement | enrollment_service/student_router.py:192-215 | placement reports the new set size out of 15, at most 15; the student was not on the set and now is; their participation count was below 3 and rose by 1; nothing else changes |
| StudentRouter.EnrollKeepsWaitlistsBounded | enrollment_service/student_router.py:192-194 | if no waitlist holds more than 15, enroll keeps it so |
| StudentRouter.EnrollKeepsParticipationBounded | enrollment_service/student_router.py:189-209 | if no participation count exceeds 3, enroll keeps it so |
| StudentRouter.EnrollKeepsSetsWellFormed | enrollment_service/student_router.py:184-213 | enroll keeps every waitlist set in rank order with each name once |
| StudentRouter.EnrollPositionIsRank | enrollment_service/student_router.py:213-215 | a student who joins later than everyone on the set goes last, so the reported position is their rank plus one |
| StudentRouter.EnrollOutcome | enrollment_service/student_router.py:94-217 | the corrected handler as a function of the stores: it never answers with the returned "class is full" body or the undefined-name failure |
| StudentRouter.EnrollAsWritten | enrollment_service/student_router.py:94-217 | the handler as it stands: it never places a student on a waitlist and never raises "class is full"; only an enrollment changes the stores |
| StudentRouter.Enroll | enrollment_service/student_router.py:75-217 | the corrected handler: it leaves both stores and answers exactly as `EnrollOutcome` prescribes for the old state. It differs from the code at two lines: it makes the participation update that :212 evidently means, and it raises the "class is full" of :217 as a 400 |
| StudentRouter.EnrollAsWrittenAgreesBeforeWaitlist | enrollment_service/student_router.py:94-190 | the handler as written and the corrected one agree on every request decided before the waitlist |
| StudentRouter.EnrollAsWrittenNeverWaitlists | enrollment_service/student_router.py:212-217 | as written, a request that reaches the waitlist never joins it: a 500 below capacity where the corrected handler places the student, a 200 at capacity where a 400 is meant |
| StudentRouter.EnrollFullIsError | enrollment_service/student_router.py:192-217 | past the waitlist checks, the corrected handler answers 400 and changes nothing exactly when the waitlist holds 15 or more or the participation update fails, and otherwise places the student at size + 1 out of 15 |
| StudentRouter.EnrollAsWrittenExample | enrollment_service/student_router.py:212 | a seatless class with an empty waitlist: the handler as written fails, the corrected one places the student at 1/15 |
| Stores.ZAdd | enrollment_service/student_router.py:213 | `ZADD` of a new member adds exactly that member |
| Stores.ZAddKeepsWellFormed | enrollment_service/student_router.py:213 | adding a name that is not a member keeps the set in rank order with each name once |
| Stores.ZAddLatestGoesLast | enrollment_service/student_router.py:213 | a member scored later than all others is appended at the end |
| Relational.CountMatching | enrollment_service/student_router.py:324-327 | the DELETE's rowcount is 0 exactly when no row has that (class_id, student_id) |
| Relational.DeleteMatching | enrollment_service/student_router.py:324-325 | the keyed DELETE removes exactly the matching rows, as many as the rowcount, and keeps every other row |
| Relational.DeleteMatchingCounts | enrollment_service/student_router.py:324-325 | counted with repeats, the DELETE leaves no copy of a matching row and every other row as many times as before |
| Relational.DeleteNothingUnchanged | enrollment_service/student_router.py:327-330 | a DELETE that matches nothing leaves the table as it was |
| Relational.DropStep | enrollment_service/student_router.py:323-343 | a drop answers "deleted" exactly when the DELETE may and does match a row and the INSERT succeeds, 409 exactly when it matches but the INSERT fails, and every answer but "deleted" leaves the tables unchanged |
| Relational.DropCommitsBeforeAutoEnroll | enrollment_service/student_router.py:332-343 | a failing droplist INSERT is a 409 with the tables unchanged; a successful drop commits the delete and one droplist row, and then, only when enabled, runs the auto-enroll helper once on `[class_id]` over exactly those committed tables |
| Relational.Drop | enrollment_service/student_router.py:323-343 | the drop statements leave the committed tables and answer exactly as `DropStep` prescribes |
| StudentRouter.DropClass | enrollment_service/student_router.py:303-351 | a student's own drop is the drop step with no ownership condition and a non-administrative droplist row |
| Relational.DropNotFound | enrollment_service/student_router.py:327-330 | a drop is a 404 exactly when no row may or does match, and any failed drop leaves the tables unchanged |
| Relational.DropAppendsOneRow | enrollment_service/student_router.py:332-339 | a successful drop without auto-enroll removes exactly the student's rows of the class, appends exactly one droplist row with the given flag, and keeps the other tables |
| Relational.DropListAppendOnly | enrollment_service/student_router.py:332-339 | without auto-enroll the old droplist is a prefix of the new one |
| Relational.WaitlistDate | enrollment_service/student_router.py:374-377 | the subquery yields NULL exactly when the student has no row for the class, and otherwise the date of one of their rows |
| Relational.CountNoLater | enrollment_service/student_router.py:371-374 | the number of the class's rows dated no later than the cut-off is at most the class's row count |
| Relational.Position | enrollment_service/student_router.py:369-380 | the selected count is at most the class's row count, and 0 when the student has no row (the comparison with NULL) |
| Relational.CountNoLaterMonotone | enrollment_service/student_router.py:371-374 | a later cut-off date counts no fewer rows, and strictly more when a row of the class lies in between |
| Relational.PositionBounds | enrollment_service/student_router.py:369-386 | the count is positive exactly when the student is on the class's waitlist, and at most that waitlist's length |
| Relational.PositionOrdered | enrollment_service/student_router.py:371-377 | a student who joined strictly earlier has a strictly smaller position |
| StudentRouter.GetCurrentWaitlistPosition | enrollment_service/student_router.py:369-386 | 404 exactly when the student is not on the class's waitlist, and otherwise a position from 1 to the list's length |
| Relational.DeleteKeepsOtherDates | enrollment_service/student_router.py:415-416 | deleting one student's rows keeps every other student's waitlist date |
| Relational.RemovalPositions | enrollment_service/student_router.py:415-416 | after the removal the student has no position, and every other listed student stays listed with a position no later than before |
| StudentRouter.RemoveFromWaitlistOutcome | enrollment_service/student_router.py:414-421 | corrected removal never reports a conflict; it is a 404 exactly when the student has no row for the class, and then the tables stay |
| StudentRouter.RemoveFromWaitlistAsWrittenOutcome | enrollment_service/student_router.py:414-429 | removal as written: the same 404 exactly when the student has no row, and the tables stay unchanged whatever the response |
| StudentRouter.RemoveFromWaitlist | enrollment_service/student_router.py:414-429 | corrected removal leaves the tables and answers as `RemoveFromWaitlistOutcome` prescribes, with the delete committed |
| StudentRouter.RemoveFromWaitlistEffect | enrollment_service/student_router.py:414-421 | corrected removal is a 404 exactly when the student is not listed; then nothing changes; otherwise only their rows go, they have no position after, other students keep theirs or move up, and the other tables stay |
| StudentRouter.RemoveFromWaitlistAsWritten | enrollment_service/student_router.py:414-429 | as written, the tables stay unchanged whatever the response |
| StudentRouter.RemoveFromWaitlistAsWrittenKeepsPosition | enrollment_service/student_router.py:414-429 | as written, a reported removal leaves the student at the same, positive, position |
| InstructorRouter.GetCurrentEnrollment | enrollment_service/instructor_router.py:30-57 | 400 exactly for a slug that does not split in two; 404 exactly when the caller does not teach the class; otherwise one `{"cwid": str(student_cwid)}` per enrollment item, same order and length |
| InstructorRouter.RosterOf | enrollment_service/instructor_router.py:55 | the projection has one entry per item, the item's cwid rendered as a string, in order |
| InstructorRouter.RosterListsEnrolled | enrollment_service/instructor_router.py:47-57 | the roster names a student exactly when the class has an enrollment item for them |
| InstructorRouter.EnrolledStudentOnRoster | enrollment_service/instructor_router.py:47-57 | after enroll takes a seat, the class's roster names the student |
| Stores.ZRange | enrollment_service/instructor_router.py:106 | `ZRANGE name 0 15` returns the members of the lowest ranks, at most 16 of them |
| InstructorRouter.NamesOf | enrollment_service/instructor_router.py:108 | the projection has one entry per member, the member's name, in rank order |
| InstructorRouter.GetWaitlist | enrollment_service/instructor_router.py:88-109 | 400 and 404 as for the roster; otherwise the names of ranks 0 to 15 of set `{class}-{term}`: at most 16 entries, lowest rank first |
| InstructorRouter.WaitlistInRankOrder | enrollment_service/instructor_router.py:105-109 | on a well-formed set the entries are in rank order, each student once |
| InstructorRouter.PlacedStudentShownOnWaitlist | enrollment_service/instructor_router.py:105-109 | after enroll places a student, the class's instructor sees them at the reported position |
| InstructorRouter.DroppedOf | enrollment_service/instructor_router.py:165 | the projection has one entry per dropped-student item, its cwid rendered as a string, in order |
| InstructorRouter.GetDroplist | enrollment_service/instructor_router.py:141-167 | 400 and 404 as for the roster; otherwise one `{"student_cwid": ...}` per dropped-student item of the class |
| Stores.ClassDropped | enrollment_service/instructor_router.py:158-163 | the `class_dropped_students` query returns exactly the dropped-student items of the (term, class) |
| InstructorRouter.DroplistListsDropped | enrollment_service/instructor_router.py:158-167 | the droplist names a student exactly when the class has a dropped-student item for them |
| InstructorRouter.DropClass | enrollment_service/instructor_router.py:187-243 | the administrative drop is the drop step whose DELETE requires the header cwid to own the class, with an administrative droplist row |
| InstructorRouter.AdministrativeDropNeedsOwner | enrollment_service/instructor_router.py:210-235 | success needs ownership and an enrolled student; a non-owner gets a 404 that changes nothing; without auto-enroll exactly one administrative droplist row is appended; with it, the helper runs on `[class_id]` over the tables that already hold the delete and that one row |
| Relational.DropTwiceNotFound | enrollment_service/instructor_router.py:210-223 | repeating a successful drop with the same arguments is a 404 |
| RegistrarHelper.GetEnrollmentPeriodParams | enrollment_service/registrar_helper.py:4-8 | the query is only a key condition on term = `{semester}-{year}` |
| RegistrarHelper.Term | enrollment_service/registrar_helper.py:6 | for a dash-free semester, `{semester}-{year}` splits at its first dash into the semester and the year's numeral |
| RegistrarHelper.TermInjective | enrollment_service/registrar_helper.py:6 | for dash-free semesters, distinct (semester, year) pairs give distinct terms |
| RegistrarHelper.UpdateEnrollmentPeriodParams | enrollment_service/registrar_helper.py:10-25 | the update request has a key and an update expression, and no key condition |
| RegistrarHelper.UpdateEnrollmentPeriodKey | enrollment_service/registrar_helper.py:12-23 | the update keys by term `{semester}-{year}` and year and asks for `UPDATED_NEW` |
| RegistrarHelper.UpdateEnrollmentPeriodSetsOnlyFlag | enrollment_service/registrar_helper.py:16-22 | the update writes `auto_enrollment_enabled` and nothing else, to exactly the request's value |
| RegistrarHelper.SetAssignmentParses | enrollment_service/registrar_helper.py:16 | `SET <name> = <value>` reads back as its two operands |
| RegistrarHelper.Merge | enrollment_service/registrar_helper.py:31-33 | `update(kwargs)` keeps the base keys and adds the kwargs; every kwarg is in the result and wins on a shared key |
| RegistrarHelper.GetCourseParams | enrollment_service/registrar_helper.py:27-33 | the result holds the key condition plus the kwargs; every kwarg is present; unless a kwarg replaces it, the condition pins department_code and course_no |
| RegistrarHelper.GetClassParams | enrollment_service/registrar_helper.py:35-40 | as for courses, with the condition pinning term `{semester}-{year}` and class `{department_code}-{course_no}-{section_no}` |
| RegistrarHelper.ClassCode | enrollment_service/registrar_helper.py:37 | for a dash-free department, `{department_code}-{course_no}-{section_no}` begins with the department up to its first dash, and with non-negative numbers holds exactly two dashes |
| RegistrarHelper.ClassCodeInjective | enrollment_service/registrar_helper.py:37 | for dash-free departments and non-negative numbers, distinct triples give distinct class codes |
| Decimal.IntToStringInjective | enrollment_service/instructor_router.py:55 | `str` of distinct integers gives distinct strings |

## Left out

- Logging. The droplist read prints its query result; output is not
  modelled.
- The storage engines. DynamoDB, Redis and sqlite are plain values. A
  transaction or a commit is one state step.
- Read failures. An exception from a DynamoDB or Redis read, or a
  `sqlite3.Error` from the position query (a 500), is not modelled.
- Write results. The results of the DynamoDB wrapper's two writes are the
  inputs `seatWriteOk` and `participationWriteOk`. A failed seat write falls
  through to the waitlist checks, as in the code.
- Integrity errors. Only the droplist INSERT can fail with an integrity
  error (409). An integrity error from a DELETE is not modelled: the DELETE
  of `remove_from_waitlist` and of both drops is taken to succeed.
- Auto-enrollment. `is_auto_enroll_enabled` and
  `enroll_students_from_waitlist` are not part of this model. They are a
  flag and an opaque function of the tables and `[class_id]`. Their
  promotion rule and their exceptions are not modelled.
- Relational.DropAppendsOneRow, Relational.DropListAppendOnly,
  Relational.DropTwiceNotFound: these are stated with auto-enroll off. With
  it on, the unseen helper may change any table.
- InstructorRouter.AdministrativeDropNeedsOwner: the single appended
  droplist row is stated with auto-enroll off. With it on, the lemma states
  only that the helper runs on the committed tables, for the same reason.
- One step per request. Each handler is modelled as one atomic step on the
  stores. In the code, each check of enroll and its write are separate store
  calls: the seat count at student_router.py:145 and the write at :178, the
  `zcard` at :192 and the `zadd` at :213. Two requests running at once can
  therefore overfill a class or a waitlist. EnrollKeepsSeatsConsistent,
  EnrollKeepsWaitlistsBounded and EnrollKeepsParticipationBounded hold for
  requests taken one at a time.
- Clocks. `time.time()` and `datetime('now')` are inputs. sqlite dates are
  numbers ordered as the text `datetime('now')` writes.
- Redis scores. Scores are unbounded integers, not doubles. Equal scores are
  ordered by name, byte by byte.
- StudentRouter.EnrollPositionIsRank: this needs the new score to be later
  than every score already on the class's `{class}-{term}` set. The code does
  not ensure this (clocks can go backwards).
- InstructorRouter.PlacedStudentShownOnWaitlist: this needs the same clock
  assumption on the class's set.
- Participation update. With its expression `SET #count = #count + :val`,
  DynamoDB rejects the update when no participation item exists yet. The
  corrected model starts the count at 0, and the rejection is part of
  `participationWriteOk`.
- Connection lifetime. The dependency that opens sqlite connections
  (`get_db`) is not part of this model. It is taken to close the connection
  without committing, which discards uncommitted work.
- Authentication and framework wiring: `get_user_decorator.py` (where
  `personnel` is unbound when the lookup finds nobody), `app.py`, the
  `get_available_classes` placeholder and `seed.py`.
- Request models. The registrar helper reads `department_code`,
  `course_no`, `year` and `semester`, but `ClassCreate` in `models.py`
  declares `dept_code`, `course_num` and `academic_year`, and no
  `EnrollmentPeriod` model is declared there. The helper's inputs are
  records of the fields it actually reads.
- The droplist DynamoDB table. `get_droplist` reads it, but the seed script
  does not create it. It is modelled as a table of dropped-student items.

## Findings

| source | as written | input that shows it | evidently intended | confidence | as-written member | corrected member |
|---|---|---|---|---|---|---|
| enrollment_service/student_router.py:212 | the participation update passes `update_params`, a name never bound (the dictionary is `update_waitlist_participation_params`), so a student with no free seat and room on the waitlist gets a NameError (500) and never joins | class "C" in term "F" with room_capacity 0, empty waitlist, student 7 enrolls with slug "F_C" | raise the participation count by 1, add the student to the set, answer 201 with position 1/15. With only the variable name fixed, DynamoDB would still reject `SET #count = #count + :val` for a student with no participation item; the example relies on the corrected model counting from 0 (see "Participation update") | not executed | StudentRouter.EnrollAsWrittenExample | StudentRouter.EnrollWaitlistPlacement |
| enrollment_service/student_router.py:217 | "class is full" is an `HTTPException` returned as the response body, so the client gets status 200 | a seatless class whose waitlist already holds 15 students | raise it: status 400 | not executed | StudentRouter.EnrollAsWrittenNeverWaitlists | StudentRouter.EnrollFullIsError |
| enrollment_service/student_router.py:414-429 | the waitlist DELETE is never committed, so the row survives while the response says it was deleted | a student on the waitlist of class 1 removes themselves, then asks for their position | commit the delete, so the position query then answers 404 | not executed | StudentRouter.RemoveFromWaitlistAsWrittenKeepsPosition | StudentRouter.RemoveFromWaitlistEffect |
