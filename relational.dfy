/**
 The sqlite tables behind the drop, waitlist-position and waitlist-removal
 endpoints, reduced to their rows, and the statements those endpoints run on
 them: the keyed DELETE with its rowcount, the droplist INSERT, and the
 position count. Dates are the values `datetime('now')` writes; its text
 format orders like the numbers that stand for it here.
 */
module Relational {
  import opened Wrappers

  datatype ClassRow = ClassRow(instructorId: int)

  /** A row of the `enrollment` or of the `waitlist` table. */
  datatype PairRow = PairRow(classId: int, studentId: int, date: int)

  datatype DropRow = DropRow(classId: int, studentId: int, dropDate: int, administrative: bool)

  datatype Tables = Tables(classes: map<int, ClassRow>, enrollment: seq<PairRow>, waitlist: seq<PairRow>, droplist: seq<DropRow>)

  /** The outcome the three deleting endpoints report. */
  datatype DeleteResponse = ItemDeleted | RecordNotFound | IntegrityConflict
  {
    function Status(): int {
      match this
      case ItemDeleted => 200
      case RecordNotFound => 404
      case IntegrityConflict => 409
    }
  }

  /** A connection; `tables` is what has been committed. */
  class Connection {
    var tables: Tables
  }

  /** `WHERE class_id = ? AND student_id = ?`. */
  predicate Matches(r: PairRow, classId: int, studentId: int) {
    r.classId == classId && r.studentId == studentId
  }

  /** The rowcount of the keyed DELETE: how many rows match. */
  function CountMatching(rows: seq<PairRow>, classId: int, studentId: int): (n: nat)
    ensures n <= |rows|
    ensures n == 0 <==> forall i :: 0 <= i < |rows| ==> !Matches(rows[i], classId, studentId)
  {
    if rows == [] then 0
    else (if Matches(rows[0], classId, studentId) then 1 else 0) + CountMatching(rows[1..], classId, studentId)
  }

  /** The table after the keyed DELETE: the non-matching rows, in their order. */
  function DeleteMatching(rows: seq<PairRow>, classId: int, studentId: int): (r: seq<PairRow>)
    ensures |r| + CountMatching(rows, classId, studentId) == |rows|
    ensures forall x :: x in r <==> x in rows && !Matches(x, classId, studentId)
  {
    if rows == [] then []
    else (if Matches(rows[0], classId, studentId) then [] else [rows[0]]) + DeleteMatching(rows[1..], classId, studentId)
  }

  /** The keyed DELETE drops every copy of a matching row and keeps every other row as many times as it occurred. */
  lemma {:induction false} DeleteMatchingCounts(rows: seq<PairRow>, classId: int, studentId: int)
    ensures forall x :: multiset(DeleteMatching(rows, classId, studentId))[x]
                        == if Matches(x, classId, studentId) then 0 else multiset(rows)[x]
  {
    if rows != [] {
      DeleteMatchingCounts(rows[1..], classId, studentId);
      assert rows == [rows[0]] + rows[1..];
    }
  }

  /** A DELETE that matches nothing leaves the table as it was. */
  lemma {:induction false} DeleteNothingUnchanged(rows: seq<PairRow>, classId: int, studentId: int)
    requires CountMatching(rows, classId, studentId) == 0
    ensures DeleteMatching(rows, classId, studentId) == rows
  {
    if rows != [] {
      DeleteNothingUnchanged(rows[1..], classId, studentId);
      assert rows == [rows[0]] + rows[1..];
    }
  }

  /** `class_id IN (SELECT id FROM "class" WHERE id = ? AND instructor_id = ?)`. */
  predicate Owns(classes: map<int, ClassRow>, classId: int, instructorId: int) {
    classId in classes && classes[classId].instructorId == instructorId
  }

  // ---------------------------------------------------------------------------
  // The drop step both routers share

  /**
   The state a drop leaves and the response it reports. `permitted` is the
   extra condition of the DELETE (always true for a student's own drop, the
   ownership subquery for an administrative one). The DELETE runs, a rowcount
   of 0 is a 404; the droplist INSERT either succeeds or raises an integrity
   error, which is a 409 and discards the uncommitted delete; otherwise both
   are committed and, when enabled, the auto-enroll step runs on the committed
   tables with the class's id.
   */
  function DropStep(t: Tables, classId: int, studentId: int, permitted: bool, administrative: bool, now: int,
                    insertOk: bool, autoEnrollEnabled: bool, autoEnroll: (Tables, seq<int>) -> Tables): (r: (Tables, DeleteResponse))
    ensures r.1 == ItemDeleted <==> permitted && CountMatching(t.enrollment, classId, studentId) > 0 && insertOk
    ensures r.1 == IntegrityConflict <==> permitted && CountMatching(t.enrollment, classId, studentId) > 0 && !insertOk
    ensures r.1 != ItemDeleted ==> r.0 == t
  {
    var rowcount := if permitted then CountMatching(t.enrollment, classId, studentId) else 0;
    if rowcount == 0 then (t, RecordNotFound)
    else if !insertOk then (t, IntegrityConflict)
    else
      var committed := t.(enrollment := DeleteMatching(t.enrollment, classId, studentId),
                          droplist := t.droplist + [DropRow(classId, studentId, now, administrative)]);
      (if autoEnrollEnabled then autoEnroll(committed, [classId]) else committed, ItemDeleted)
  }

  /** The statements of a drop on one connection: DELETE, rowcount check, INSERT, commit, then the optional auto-enroll step. */
  method Drop(db: Connection, classId: int, studentId: int, permitted: bool, administrative: bool, now: int,
              insertOk: bool, autoEnrollEnabled: bool, autoEnroll: (Tables, seq<int>) -> Tables)
    returns (resp: DeleteResponse)
    modifies db
    ensures (db.tables, resp) == DropStep(old(db.tables), classId, studentId, permitted, administrative, now, insertOk, autoEnrollEnabled, autoEnroll)
  {
    var pending := db.tables;
    var rowcount := 0;
    if permitted {
      rowcount := CountMatching(pending.enrollment, classId, studentId);
      pending := pending.(enrollment := DeleteMatching(pending.enrollment, classId, studentId));
    }
    if rowcount == 0 {
      return RecordNotFound;
    }
    if !insertOk {
      return IntegrityConflict;
    }
    pending := pending.(droplist := pending.droplist + [DropRow(classId, studentId, now, administrative)]);
    db.tables := pending;
    if autoEnrollEnabled {
      db.tables := autoEnroll(db.tables, [classId]);
    }
    return ItemDeleted;
  }

  /** A drop reports 404 exactly when the DELETE may not or does not remove a row, and then nothing changes. */
  lemma DropNotFound(t: Tables, classId: int, studentId: int, permitted: bool, administrative: bool, now: int,
                     insertOk: bool, autoEnrollEnabled: bool, autoEnroll: (Tables, seq<int>) -> Tables)
    ensures var (after, resp) := DropStep(t, classId, studentId, permitted, administrative, now, insertOk, autoEnrollEnabled, autoEnroll);
            resp == RecordNotFound <==> !permitted || forall i :: 0 <= i < |t.enrollment| ==> !Matches(t.enrollment[i], classId, studentId)
    ensures var (after, resp) := DropStep(t, classId, studentId, permitted, administrative, now, insertOk, autoEnrollEnabled, autoEnroll);
            resp != ItemDeleted ==> after == t
  {
  }

  /**
   A successful drop without auto-enroll removes exactly the student's rows of
   that class from `enrollment`, appends one droplist row with the given flag,
   and changes nothing else.
   */
  lemma DropAppendsOneRow(t: Tables, classId: int, studentId: int, permitted: bool, administrative: bool, now: int,
                          insertOk: bool, autoEnroll: (Tables, seq<int>) -> Tables)
    ensures var (after, resp) := DropStep(t, classId, studentId, permitted, administrative, now, insertOk, false, autoEnroll);
            resp == ItemDeleted ==>
              && after.droplist == t.droplist + [DropRow(classId, studentId, now, administrative)]
              && |after.enrollment| < |t.enrollment|
              && (forall x :: x in after.enrollment <==> x in t.enrollment && !Matches(x, classId, studentId))
              && after.classes == t.classes && after.waitlist == t.waitlist
  {
  }

  /** Without auto-enroll the droplist is only ever appended to. */
  lemma DropListAppendOnly(t: Tables, classId: int, studentId: int, permitted: bool, administrative: bool, now: int,
                           insertOk: bool, autoEnroll: (Tables, seq<int>) -> Tables)
    ensures var (after, resp) := DropStep(t, classId, studentId, permitted, administrative, now, insertOk, false, autoEnroll);
            |after.droplist| >= |t.droplist| && after.droplist[..|t.droplist|] == t.droplist
  {
  }

  /**
   A failing droplist INSERT is a 409 that discards the uncommitted delete.
   A successful drop commits the delete and the one droplist row first; the
   auto-enroll step, when enabled, then runs once, on `[classId]`, over
   exactly those committed tables.
   */
  lemma DropCommitsBeforeAutoEnroll(t: Tables, classId: int, studentId: int, permitted: bool, administrative: bool, now: int,
                                    insertOk: bool, autoEnrollEnabled: bool, autoEnroll: (Tables, seq<int>) -> Tables)
    ensures permitted && CountMatching(t.enrollment, classId, studentId) > 0 && !insertOk ==>
              DropStep(t, classId, studentId, permitted, administrative, now, insertOk, autoEnrollEnabled, autoEnroll) == (t, IntegrityConflict)
    ensures var (after, resp) := DropStep(t, classId, studentId, permitted, administrative, now, insertOk, autoEnrollEnabled, autoEnroll);
            var committed := t.(enrollment := DeleteMatching(t.enrollment, classId, studentId),
                                droplist := t.droplist + [DropRow(classId, studentId, now, administrative)]);
            resp == ItemDeleted ==> after == if autoEnrollEnabled then autoEnroll(committed, [classId]) else committed
  {
  }

  /** Repeating a successful drop (with no auto-enroll step between) finds no row: 404. */
  lemma {:induction false} DropTwiceNotFound(t: Tables, classId: int, studentId: int, permitted: bool, administrative: bool,
                                               now1: int, now2: int, insertOk1: bool, insertOk2: bool,
                                               autoEnroll: (Tables, seq<int>) -> Tables)
    requires DropStep(t, classId, studentId, permitted, administrative, now1, insertOk1, false, autoEnroll).1 == ItemDeleted
    ensures var t1 := DropStep(t, classId, studentId, permitted, administrative, now1, insertOk1, false, autoEnroll).0;
            DropStep(t1, classId, studentId, permitted, administrative, now2, insertOk2, false, autoEnroll).1 == RecordNotFound
  {
    var t1 := DropStep(t, classId, studentId, permitted, administrative, now1, insertOk1, false, autoEnroll).0;
    var rest := t1.enrollment;
    forall i | 0 <= i < |rest| ensures !Matches(rest[i], classId, studentId) {
      assert rest[i] in rest;
    }
  }

  // ---------------------------------------------------------------------------
  // Waitlist position

  /** The scalar subquery: the waitlist date of the first (class, student) row, NULL when there is none. */
  function WaitlistDate(rows: seq<PairRow>, classId: int, studentId: int): (d: Option<int>)
    ensures d.None? <==> forall i :: 0 <= i < |rows| ==> !Matches(rows[i], classId, studentId)
    ensures d.Some? ==> exists i :: 0 <= i < |rows| && Matches(rows[i], classId, studentId) && rows[i].date == d.value
  {
    if rows == [] then None
    else if Matches(rows[0], classId, studentId) then Some(rows[0].date)
    else
      var d := WaitlistDate(rows[1..], classId, studentId);
      assert d.Some? ==> exists i :: 1 <= i < |rows| && Matches(rows[i], classId, studentId) && rows[i].date == d.value by {
        if d.Some? {
          var j :| 0 <= j < |rows[1..]| && Matches(rows[1..][j], classId, studentId) && rows[1..][j].date == d.value;
          assert rows[j + 1] == rows[1..][j];
        }
      }
      d
  }

  /** Rows of the class whose date is no later than d. */
  function CountNoLater(rows: seq<PairRow>, classId: int, d: int): (n: nat)
    ensures n <= ClassSize(rows, classId) <= |rows|
  {
    if rows == [] then 0
    else (if rows[0].classId == classId && rows[0].date <= d then 1 else 0) + CountNoLater(rows[1..], classId, d)
  }

  /** The rows of one class. */
  function ClassSize(rows: seq<PairRow>, classId: int): (n: nat)
    ensures n <= |rows|
  {
    if rows == [] then 0
    else (if rows[0].classId == classId then 1 else 0) + ClassSize(rows[1..], classId)
  }

  /** The value the position query selects: the count, 0 when the comparison is with NULL. */
  function Position(rows: seq<PairRow>, classId: int, studentId: int): (n: nat)
    ensures n <= ClassSize(rows, classId)
    ensures WaitlistDate(rows, classId, studentId).None? ==> n == 0
  {
    match WaitlistDate(rows, classId, studentId)
    case None => 0
    case Some(d) => CountNoLater(rows, classId, d)
  }

  /** A row of the class dated d or earlier is counted. */
  lemma {:induction false} CountNoLaterCounts(rows: seq<PairRow>, classId: int, d: int, i: nat)
    requires i < |rows| && rows[i].classId == classId && rows[i].date <= d
    ensures CountNoLater(rows, classId, d) >= 1
  {
    if i > 0 {
      CountNoLaterCounts(rows[1..], classId, d, i - 1);
    }
  }

  /** Moving the cut-off later counts no fewer rows, and strictly more when a row of the class lies in between. */
  lemma {:induction false} CountNoLaterMonotone(rows: seq<PairRow>, classId: int, d1: int, d2: int)
    requires d1 <= d2
    ensures CountNoLater(rows, classId, d1) <= CountNoLater(rows, classId, d2)
    ensures (exists i :: 0 <= i < |rows| && rows[i].classId == classId && d1 < rows[i].date <= d2)
            ==> CountNoLater(rows, classId, d1) < CountNoLater(rows, classId, d2)
  {
    if rows != [] {
      CountNoLaterMonotone(rows[1..], classId, d1, d2);
      if exists i :: 0 <= i < |rows| && rows[i].classId == classId && d1 < rows[i].date <= d2 {
        var i :| 0 <= i < |rows| && rows[i].classId == classId && d1 < rows[i].date <= d2;
        if i > 0 {
          assert rows[1..][i - 1] == rows[i];
        }
      }
    }
  }

  /** A student has a positive position exactly when they are on the class's waitlist, and it never exceeds the list's length. */
  lemma PositionBounds(rows: seq<PairRow>, classId: int, studentId: int)
    ensures Position(rows, classId, studentId) > 0 <==> exists i :: 0 <= i < |rows| && Matches(rows[i], classId, studentId)
    ensures Position(rows, classId, studentId) <= ClassSize(rows, classId)
  {
    var d := WaitlistDate(rows, classId, studentId);
    if d.Some? {
      var i :| 0 <= i < |rows| && Matches(rows[i], classId, studentId) && rows[i].date == d.value;
      CountNoLaterCounts(rows, classId, d.value, i);
    }
  }

  /** Whoever joined a class's waitlist strictly earlier is strictly ahead. */
  lemma PositionOrdered(rows: seq<PairRow>, classId: int, s1: int, s2: int)
    requires WaitlistDate(rows, classId, s1).Some? && WaitlistDate(rows, classId, s2).Some?
    requires WaitlistDate(rows, classId, s1).value < WaitlistDate(rows, classId, s2).value
    ensures 0 < Position(rows, classId, s1) < Position(rows, classId, s2)
  {
    var d1, d2 := WaitlistDate(rows, classId, s1).value, WaitlistDate(rows, classId, s2).value;
    PositionBounds(rows, classId, s1);
    var j :| 0 <= j < |rows| && Matches(rows[j], classId, s2) && rows[j].date == d2;
    CountNoLaterMonotone(rows, classId, d1, d2);
  }

  lemma {:induction false} DeleteKeepsOtherDates(rows: seq<PairRow>, classId: int, studentId: int, classId2: int, studentId2: int)
    requires classId2 != classId || studentId2 != studentId
    ensures WaitlistDate(DeleteMatching(rows, classId, studentId), classId2, studentId2) == WaitlistDate(rows, classId2, studentId2)
  {
    if rows != [] {
      DeleteKeepsOtherDates(rows[1..], classId, studentId, classId2, studentId2);
      var rest := DeleteMatching(rows[1..], classId, studentId);
      if Matches(rows[0], classId, studentId) {
        assert DeleteMatching(rows, classId, studentId) == rest;
      } else {
        var r := DeleteMatching(rows, classId, studentId);
        assert r == [rows[0]] + rest;
        assert r[0] == rows[0] && r[1..] == rest;
      }
    }
  }

  lemma {:induction false} DeleteCountsNoMore(rows: seq<PairRow>, classId: int, studentId: int, classId2: int, d: int)
    ensures CountNoLater(DeleteMatching(rows, classId, studentId), classId2, d) <= CountNoLater(rows, classId2, d)
  {
    if rows != [] {
      DeleteCountsNoMore(rows[1..], classId, studentId, classId2, d);
      var rest := DeleteMatching(rows[1..], classId, studentId);
      if Matches(rows[0], classId, studentId) {
        assert DeleteMatching(rows, classId, studentId) == rest;
      } else {
        var r := DeleteMatching(rows, classId, studentId);
        assert r == [rows[0]] + rest;
        assert r[0] == rows[0] && r[1..] == rest;
      }
    }
  }

  /**
   Removing a student from a class's waitlist leaves them no position there,
   keeps every other listed student of that class listed, and moves nobody
   back.
   */
  lemma RemovalPositions(rows: seq<PairRow>, classId: int, studentId: int, other: int)
    ensures Position(DeleteMatching(rows, classId, studentId), classId, studentId) == 0
    ensures other != studentId ==>
              && Position(DeleteMatching(rows, classId, studentId), classId, other) <= Position(rows, classId, other)
              && (Position(rows, classId, other) > 0 ==> Position(DeleteMatching(rows, classId, studentId), classId, other) > 0)
  {
    var rest := DeleteMatching(rows, classId, studentId);
    forall i | 0 <= i < |rest| ensures !Matches(rest[i], classId, studentId) {
      assert rest[i] in rest;
    }
    if other != studentId {
      DeleteKeepsOtherDates(rows, classId, studentId, classId, other);
      var d := WaitlistDate(rows, classId, other);
      if d.Some? {
        DeleteCountsNoMore(rows, classId, studentId, classId, d.value);
      }
      PositionBounds(rows, classId, other);
      PositionBounds(rest, classId, other);
    }
  }
}
