/**
 The instructor endpoints of the enrollment service: three reads (the roster,
 the waitlist and the droplist of a class the caller teaches) over the
 DynamoDB tables and the Redis waitlists, and the administrative drop over
 the sqlite tables.
 */
module InstructorRouter {
  import opened Wrappers
  import opened Decimal
  import opened Slug
  import opened Stores
  import opened Relational
  import StudentRouter

  /** The last rank the waitlist read asks for: `ZRANGE name 0 15`. */
  const WaitlistLastRank: nat := 15

  datatype ReadResponse<T> = Data(data: seq<T>) | InvalidClassTerm | ClassNotFound
  {
    function Status(): int {
      match this
      case Data(_) => 200
      case InvalidClassTerm => 400
      case ClassNotFound => 404
    }
  }

  /** `{"cwid": ...}` of the roster. */
  datatype RosterEntry = RosterEntry(cwid: string)

  /** `{"student_cwid": ...}` of the waitlist and the droplist. */
  datatype StudentEntry = StudentEntry(studentCwid: string)

  /** The class query with its instructor filter finds an item: the class exists and the caller teaches it. */
  predicate Teaches(classes: map<ClassKey, ClassItem>, ct: ClassTerm, cwid: int) {
    var key := ClassKey(ct.term, ct.classCode);
    key in classes && classes[key].instructorId == cwid
  }

  /** The roster projection: each enrollment item's cwid as a string, in the items' order. */
  function RosterOf(items: seq<EnrollmentItem>): (r: seq<RosterEntry>)
    ensures |r| == |items|
    ensures forall i :: 0 <= i < |items| ==> r[i] == RosterEntry(IntToString(items[i].studentCwid))
  {
    if items == [] then [] else [RosterEntry(IntToString(items[0].studentCwid))] + RosterOf(items[1..])
  }

  /** The waitlist projection: each member's name, in rank order. */
  function NamesOf(members: seq<Member>): (r: seq<StudentEntry>)
    ensures |r| == |members|
    ensures forall i :: 0 <= i < |members| ==> r[i] == StudentEntry(members[i].name)
  {
    if members == [] then [] else [StudentEntry(members[0].name)] + NamesOf(members[1..])
  }

  /** The droplist projection: each dropped-student item's cwid as a string, in the items' order. */
  function DroppedOf(items: seq<DroppedItem>): (r: seq<StudentEntry>)
    ensures |r| == |items|
    ensures forall i :: 0 <= i < |items| ==> r[i] == StudentEntry(IntToString(items[i].studentCwid))
  {
    if items == [] then [] else [StudentEntry(IntToString(items[0].studentCwid))] + DroppedOf(items[1..])
  }

  /** The roster of a class the caller teaches. */
  function GetCurrentEnrollment(classes: map<ClassKey, ClassItem>, enrollments: seq<EnrollmentItem>, slug: string, cwid: int)
    : (r: ReadResponse<RosterEntry>)
    ensures r.InvalidClassTerm? <==> Occurrences(slug, '_') != 1
    ensures r.ClassNotFound? <==> ParseClassTerm(slug).Some? && !Teaches(classes, ParseClassTerm(slug).value, cwid)
    ensures r.Data? ==>
              var ct := ParseClassTerm(slug).value;
              var rows := ClassEnrollment(enrollments, ct.term, ct.classCode);
              |r.data| == |rows| && forall i :: 0 <= i < |rows| ==> r.data[i] == RosterEntry(IntToString(rows[i].studentCwid))
  {
    match ParseClassTerm(slug)
    case None => InvalidClassTerm
    case Some(ct) =>
      if !Teaches(classes, ct, cwid) then ClassNotFound
      else Data(RosterOf(ClassEnrollment(enrollments, ct.term, ct.classCode)))
  }

  /** The first sixteen members of the waitlist of a class the caller teaches. */
  function GetWaitlist(classes: map<ClassKey, ClassItem>, sets: map<string, seq<Member>>, slug: string, cwid: int)
    : (r: ReadResponse<StudentEntry>)
    ensures r.InvalidClassTerm? <==> Occurrences(slug, '_') != 1
    ensures r.ClassNotFound? <==> ParseClassTerm(slug).Some? && !Teaches(classes, ParseClassTerm(slug).value, cwid)
    ensures r.Data? ==>
              var ct := ParseClassTerm(slug).value;
              var zs := Members(sets, WaitlistName(ct.classCode, ct.term));
              && |r.data| == (if |zs| <= WaitlistLastRank then |zs| else WaitlistLastRank + 1)
              && forall i :: 0 <= i < |r.data| ==> r.data[i] == StudentEntry(zs[i].name)
  {
    match ParseClassTerm(slug)
    case None => InvalidClassTerm
    case Some(ct) =>
      if !Teaches(classes, ct, cwid) then ClassNotFound
      else Data(NamesOf(ZRange(Members(sets, WaitlistName(ct.classCode, ct.term)), WaitlistLastRank)))
  }

  /** The students who dropped a class the caller teaches. */
  function GetDroplist(classes: map<ClassKey, ClassItem>, dropped: seq<DroppedItem>, slug: string, cwid: int)
    : (r: ReadResponse<StudentEntry>)
    ensures r.InvalidClassTerm? <==> Occurrences(slug, '_') != 1
    ensures r.ClassNotFound? <==> ParseClassTerm(slug).Some? && !Teaches(classes, ParseClassTerm(slug).value, cwid)
    ensures r.Data? ==>
              var ct := ParseClassTerm(slug).value;
              var rows := ClassDropped(dropped, ct.term, ct.classCode);
              |r.data| == |rows| && forall i :: 0 <= i < |rows| ==> r.data[i] == StudentEntry(IntToString(rows[i].studentCwid))
  {
    match ParseClassTerm(slug)
    case None => InvalidClassTerm
    case Some(ct) =>
      if !Teaches(classes, ct, cwid) then ClassNotFound
      else Data(DroppedOf(ClassDropped(dropped, ct.term, ct.classCode)))
  }

  /** The roster names a student exactly when the class has an enrollment item for them. */
  lemma RosterListsEnrolled(classes: map<ClassKey, ClassItem>, enrollments: seq<EnrollmentItem>, slug: string, cwid: int, student: int)
    requires GetCurrentEnrollment(classes, enrollments, slug, cwid).Data?
    ensures var ct := ParseClassTerm(slug).value;
            RosterEntry(IntToString(student)) in GetCurrentEnrollment(classes, enrollments, slug, cwid).data
            <==> exists x :: x in enrollments && x.term == ct.term && x.classCode == ct.classCode && x.studentCwid == student
  {
    var ct := ParseClassTerm(slug).value;
    var rows := ClassEnrollment(enrollments, ct.term, ct.classCode);
    var data := GetCurrentEnrollment(classes, enrollments, slug, cwid).data;
    if RosterEntry(IntToString(student)) in data {
      var i :| 0 <= i < |data| && data[i] == RosterEntry(IntToString(student));
      IntToStringInjective(rows[i].studentCwid, student);
      assert rows[i] in rows;
    }
    if exists x :: x in enrollments && x.term == ct.term && x.classCode == ct.classCode && x.studentCwid == student {
      var x :| x in enrollments && x.term == ct.term && x.classCode == ct.classCode && x.studentCwid == student;
      var i :| 0 <= i < |rows| && rows[i] == x;
      assert data[i] == RosterEntry(IntToString(student));
    }
  }

  /** The droplist names a student exactly when the class has a dropped-student item for them. */
  lemma DroplistListsDropped(classes: map<ClassKey, ClassItem>, dropped: seq<DroppedItem>, slug: string, cwid: int, student: int)
    requires GetDroplist(classes, dropped, slug, cwid).Data?
    ensures var ct := ParseClassTerm(slug).value;
            StudentEntry(IntToString(student)) in GetDroplist(classes, dropped, slug, cwid).data
            <==> exists x :: x in dropped && x.term == ct.term && x.classCode == ct.classCode && x.studentCwid == student
  {
    var ct := ParseClassTerm(slug).value;
    var rows := ClassDropped(dropped, ct.term, ct.classCode);
    var data := GetDroplist(classes, dropped, slug, cwid).data;
    if StudentEntry(IntToString(student)) in data {
      var i :| 0 <= i < |data| && data[i] == StudentEntry(IntToString(student));
      IntToStringInjective(rows[i].studentCwid, student);
      assert rows[i] in rows;
    }
    if exists x :: x in dropped && x.term == ct.term && x.classCode == ct.classCode && x.studentCwid == student {
      var x :| x in dropped && x.term == ct.term && x.classCode == ct.classCode && x.studentCwid == student;
      var i :| 0 <= i < |rows| && rows[i] == x;
      assert data[i] == StudentEntry(IntToString(student));
    }
  }

  /** On a well-formed set the waitlist read lists earlier-ranked students first, each once. */
  lemma WaitlistInRankOrder(classes: map<ClassKey, ClassItem>, sets: map<string, seq<Member>>, slug: string, cwid: int)
    requires GetWaitlist(classes, sets, slug, cwid).Data?
    requires var ct := ParseClassTerm(slug).value; WellFormedSet(Members(sets, WaitlistName(ct.classCode, ct.term)))
    ensures var ct := ParseClassTerm(slug).value;
            var zs := Members(sets, WaitlistName(ct.classCode, ct.term));
            var data := GetWaitlist(classes, sets, slug, cwid).data;
            forall i, j :: 0 <= i < j < |data| ==> Before(zs[i], zs[j]) && data[i] != data[j]
  {
  }

  /**
   After a student is placed on a waitlist by the corrected enroll handler,
   that class's instructor sees them at the reported position, counting
   from one, provided the student joined later than everyone already on
   that waitlist.
   */
  lemma PlacedStudentShownOnWaitlist(b: StudentRouter.Backends, slug: string, student: int, nowMillis: int,
                                     seatWriteOk: bool, instructor: int)
    requires ParseClassTerm(slug).Some? && Teaches(b.classes, ParseClassTerm(slug).value, instructor)
    requires var zs := Members(b.sets, WaitlistName(ParseClassTerm(slug).value.classCode, ParseClassTerm(slug).value.term));
             forall i :: 0 <= i < |zs| ==> zs[i].score < nowMillis
    requires StudentRouter.EnrollOutcome(b, slug, student, nowMillis, seatWriteOk, true).1.PlacedOnWaitlist?
    ensures var (after, resp) := StudentRouter.EnrollOutcome(b, slug, student, nowMillis, seatWriteOk, true);
            var shown := GetWaitlist(after.classes, after.sets, slug, instructor);
            shown.Data? && 1 <= resp.position <= |shown.data| && shown.data[resp.position - 1] == StudentEntry(IntToString(student))
  {
    StudentRouter.EnrollPositionIsRank(b, slug, student, nowMillis, seatWriteOk, true);
    StudentRouter.EnrollWaitlistPlacement(b, slug, student, nowMillis, seatWriteOk, true);
  }

  /**
   After a seat is taken by the enroll handler, the class's roster names the
   student.
   */
  lemma EnrolledStudentOnRoster(b: StudentRouter.Backends, slug: string, student: int, nowMillis: int,
                                participationWriteOk: bool, instructor: int)
    requires ParseClassTerm(slug).Some? && Teaches(b.classes, ParseClassTerm(slug).value, instructor)
    requires StudentRouter.EnrollOutcome(b, slug, student, nowMillis, true, participationWriteOk).1.Enrolled?
    ensures var after := StudentRouter.EnrollOutcome(b, slug, student, nowMillis, true, participationWriteOk).0;
            var roster := GetCurrentEnrollment(after.classes, after.enrollments, slug, instructor);
            roster.Data? && RosterEntry(IntToString(student)) in roster.data
  {
    var ct := ParseClassTerm(slug).value;
    StudentRouter.EnrollTakesOneSeat(b, slug, student, nowMillis, true, participationWriteOk);
    var after := StudentRouter.EnrollOutcome(b, slug, student, nowMillis, true, participationWriteOk).0;
    var x := EnrollmentItem(ct.term, EnrollmentSlug(ct.classCode, student), student, ct.classCode);
    assert x in after.enrollments;
    RosterListsEnrolled(after.classes, after.enrollments, slug, instructor, student);
  }

  // ---------------------------------------------------------------------------
  // The administrative drop

  /** The DELETE is conditioned on the class being the header cwid's; the droplist row is administrative. */
  method DropClass(db: Connection, classId: int, studentId: int, instructorId: int, now: int, insertOk: bool,
                   autoEnrollEnabled: bool, autoEnroll: (Tables, seq<int>) -> Tables)
    returns (resp: DeleteResponse)
    modifies db
    ensures (db.tables, resp)
            == DropStep(old(db.tables), classId, studentId, Owns(old(db.tables).classes, classId, instructorId), true,
                        now, insertOk, autoEnrollEnabled, autoEnroll)
  {
    var permitted := Owns(db.tables.classes, classId, instructorId);
    resp := Drop(db, classId, studentId, permitted, true, now, insertOk, autoEnrollEnabled, autoEnroll);
  }

  /**
   An administrative drop succeeds only for the class's own instructor and
   only when the student is enrolled; for anyone else it is a 404 that changes
   nothing. It commits the delete and one administrative droplist row; with
   auto-enroll on, the helper then runs on those committed tables.
   */
  lemma AdministrativeDropNeedsOwner(t: Tables, classId: int, studentId: int, instructorId: int, now: int, insertOk: bool,
                                     autoEnrollEnabled: bool, autoEnroll: (Tables, seq<int>) -> Tables)
    ensures var (after, resp) := DropStep(t, classId, studentId, Owns(t.classes, classId, instructorId), true,
                                          now, insertOk, autoEnrollEnabled, autoEnroll);
            && (resp == ItemDeleted ==> Owns(t.classes, classId, instructorId) && CountMatching(t.enrollment, classId, studentId) > 0)
            && (!Owns(t.classes, classId, instructorId) ==> after == t && resp == RecordNotFound)
            && (resp == ItemDeleted && !autoEnrollEnabled ==>
                  after.droplist == t.droplist + [DropRow(classId, studentId, now, true)])
            && (resp == ItemDeleted && autoEnrollEnabled ==>
                  after == autoEnroll(t.(enrollment := DeleteMatching(t.enrollment, classId, studentId),
                                         droplist := t.droplist + [DropRow(classId, studentId, now, true)]), [classId]))
  {
  }
}
