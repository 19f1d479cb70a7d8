/**
 The student endpoints of the enrollment service.

 `Enroll` works on the DynamoDB tables and the Redis waitlists; it is the
 corrected handler (the participation update it evidently means is made and
 "class is full" is an error response), and `EnrollAsWritten` is the handler
 as it stands. `DropClass`, `GetCurrentWaitlistPosition` and
 `RemoveFromWaitlist` work on the sqlite tables.

 The responses of the Dynamo wrapper's writes (`transact_write_items`,
 `update_item`) are the parameters `seatWriteOk` and `participationWriteOk`;
 the join time `round(time.time() * 1000)` is `nowMillis`; `datetime('now')`
 is `now`.
 */
module StudentRouter {
  import opened Wrappers
  import opened Decimal
  import opened Slug
  import opened Stores
  import opened Relational

  const WaitlistCapacity: nat := 15
  const MaxWaitlistsPerStudent: nat := 3

  datatype EnrollResponse =
    | InvalidClassTerm
    | ClassNotFound
    | AlreadyEnrolled
    | Enrolled(classCode: string, term: string)
    | AlreadyWaitlisted
    | TooManyWaitlists
    | PlacedOnWaitlist(position: nat, capacity: nat)
    | ClassFull
      /** The "class is full" exception object returned as an ordinary response body. */
    | ClassFullReturned
      /** The NameError of the participation update, which the framework turns into a 500. */
    | UndefinedName
  {
    function Status(): int {
      match this
      case InvalidClassTerm => 400
      case ClassNotFound => 404
      case AlreadyEnrolled => 409
      case Enrolled(_, _) => 201
      case AlreadyWaitlisted => 409
      case TooManyWaitlists => 403
      case PlacedOnWaitlist(_, _) => 201
      case ClassFull => 400
      case ClassFullReturned => 200
      case UndefinedName => 500
    }
  }

  /** The contents of both stores at one moment. */
  datatype Backends = Backends(
    classes: map<ClassKey, ClassItem>,
    enrollments: seq<EnrollmentItem>,
    participation: map<ParticipationKey, nat>,
    dropped: seq<DroppedItem>,
    sets: map<string, seq<Member>>)

  function Snapshot(db: DynamoDb, redis: RedisDb): Backends
    reads db, redis
  {
    Backends(db.classes, db.enrollments, db.participation, db.dropped, redis.sets)
  }

  // ---------------------------------------------------------------------------
  // Enroll: the specification

  /** How far the enroll handler gets before it touches the waitlist: a decision, or the waitlist it goes on to. */
  datatype Admission =
    | Decided(after: Backends, response: EnrollResponse)
    | Waitlisting(term: string, setName: string, size: nat)

  /**
   The checks of the enroll handler up to the waitlist, in their order: the
   slug, the class, an existing enrollment of this student, a free seat (the
   number of the class's enrollment items below the room capacity, and the
   two-item write succeeding), membership of the class's waitlist, and the
   student's participation count for the term.
   */
  function Admit(b: Backends, slug: string, cwid: int, seatWriteOk: bool): Admission {
    match ParseClassTerm(slug)
    case None => Decided(b, InvalidClassTerm)
    case Some(ct) => AdmitToClass(b, ct, cwid, seatWriteOk)
  }

  function AdmitToClass(b: Backends, ct: ClassTerm, cwid: int, seatWriteOk: bool): Admission {
    var key := ClassKey(ct.term, ct.classCode);
    if key !in b.classes then Decided(b, ClassNotFound)
    else if HasEnrollment(b.enrollments, ct.term, EnrollmentSlug(ct.classCode, cwid)) then Decided(b, AlreadyEnrolled)
    else if SeatFree(b, key) && seatWriteOk then Decided(TakeSeat(b, ct, cwid), Enrolled(ct.classCode, ct.term))
    else AdmitToWaitlist(b, ct, cwid)
  }

  /** The class has fewer enrollment items than its room capacity. */
  predicate SeatFree(b: Backends, key: ClassKey)
    requires key in b.classes
  {
    |ClassEnrollment(b.enrollments, key.term, key.classCode)| < b.classes[key].roomCapacity
  }

  /** The seat transaction: one enrollment item for the student, and the class's count one higher. */
  function TakeSeat(b: Backends, ct: ClassTerm, cwid: int): Backends
    requires ClassKey(ct.term, ct.classCode) in b.classes
  {
    var key := ClassKey(ct.term, ct.classCode);
    var item := b.classes[key];
    b.(enrollments := b.enrollments + [EnrollmentItem(ct.term, EnrollmentSlug(ct.classCode, cwid), cwid, ct.classCode)],
       classes := b.classes[key := item.(enrollmentCount := item.enrollmentCount + 1)])
  }

  function AdmitToWaitlist(b: Backends, ct: ClassTerm, cwid: int): Admission {
    var name := WaitlistName(ct.classCode, ct.term);
    var pkey := ParticipationKey(cwid, ct.term);
    if IsMember(Members(b.sets, name), IntToString(cwid)) then Decided(b, AlreadyWaitlisted)
    else if pkey in b.participation && b.participation[pkey] >= MaxWaitlistsPerStudent then Decided(b, TooManyWaitlists)
    else Waitlisting(ct.term, name, |Members(b.sets, name)|)
  }

  /** Joining a waitlist: the participation count for (cwid, term) one higher (from 0 when absent), the student added to the set. */
  function JoinWaitlist(b: Backends, term: string, name: string, cwid: int, nowMillis: int): Backends {
    var pkey := ParticipationKey(cwid, term);
    var count := if pkey in b.participation then b.participation[pkey] else 0;
    b.(participation := b.participation[pkey := count + 1],
       sets := b.sets[name := ZAdd(Members(b.sets, name), Member(IntToString(cwid), nowMillis))])
  }

  /**
   The corrected handler: below capacity, and when the participation update
   succeeds, the student joins the waitlist; otherwise the class is full.
   */
  function EnrollOutcome(b: Backends, slug: string, cwid: int, nowMillis: int, seatWriteOk: bool, participationWriteOk: bool)
    : (r: (Backends, EnrollResponse))
    ensures !r.1.ClassFullReturned? && !r.1.UndefinedName?
  {
    AdmitShape(b, slug, cwid, seatWriteOk);
    Conclude(b, Admit(b, slug, cwid, seatWriteOk), cwid, nowMillis, participationWriteOk)
  }

  /** The corrected waitlist step that follows an admission. */
  function Conclude(b: Backends, a: Admission, cwid: int, nowMillis: int, participationWriteOk: bool): (Backends, EnrollResponse) {
    match a
    case Decided(after, response) => (after, response)
    case Waitlisting(term, name, size) =>
      if size < WaitlistCapacity && participationWriteOk then
        (JoinWaitlist(b, term, name, cwid, nowMillis), PlacedOnWaitlist(size + 1, WaitlistCapacity))
      else (b, ClassFull)
  }

  /**
   The handler as written: below capacity the participation update names an
   undefined variable, so the request fails before any waitlist write; at
   capacity the "class is full" exception is returned, not raised.
   */
  function EnrollAsWritten(b: Backends, slug: string, cwid: int, seatWriteOk: bool): (r: (Backends, EnrollResponse))
    ensures !r.1.PlacedOnWaitlist? && !r.1.ClassFull?
    ensures r.0 == b || r.1.Enrolled?
  {
    AdmitShape(b, slug, cwid, seatWriteOk);
    match Admit(b, slug, cwid, seatWriteOk)
    case Decided(after, response) => (after, response)
    case Waitlisting(_, _, size) => if size < WaitlistCapacity then (b, UndefinedName) else (b, ClassFullReturned)
  }

  lemma AdmitToWaitlistShape(b: Backends, ct: ClassTerm, cwid: int)
    ensures var a := AdmitToWaitlist(b, ct, cwid);
            var name := WaitlistName(ct.classCode, ct.term);
            || (a.Decided? && a.after == b && (a.response == AlreadyWaitlisted || a.response == TooManyWaitlists))
            || (a.Waitlisting? && a.term == ct.term && a.setName == name && a.size == |Members(b.sets, name)|)
  {
  }

  lemma AdmitToClassShape(b: Backends, ct: ClassTerm, cwid: int, seatWriteOk: bool)
    ensures var a := AdmitToClass(b, ct, cwid, seatWriteOk);
            var key := ClassKey(ct.term, ct.classCode);
            || (a.Decided? && a.after == b && (a.response == ClassNotFound || a.response == AlreadyEnrolled))
            || (key in b.classes && SeatFree(b, key) && a == Decided(TakeSeat(b, ct, cwid), Enrolled(ct.classCode, ct.term)))
            || a == AdmitToWaitlist(b, ct, cwid)
  {
  }

  /** A decision taken before the waitlist is a refusal that changes nothing, or a taken seat. */
  lemma AdmitShape(b: Backends, slug: string, cwid: int, seatWriteOk: bool)
    ensures var a := Admit(b, slug, cwid, seatWriteOk);
            a.Decided? ==>
              || (a.after == b && a.response in {InvalidClassTerm, ClassNotFound, AlreadyEnrolled, AlreadyWaitlisted, TooManyWaitlists})
              || a.response.Enrolled?
  {
    match ParseClassTerm(slug)
    case None =>
    case Some(ct) =>
      AdmitToClassShape(b, ct, cwid, seatWriteOk);
      AdmitToWaitlistShape(b, ct, cwid);
  }

  /** Every request ends in one of three ways: nothing changes, a seat is taken, or the student joins the class's waitlist. */
  lemma EnrollShapes(b: Backends, slug: string, cwid: int, nowMillis: int, seatWriteOk: bool, participationWriteOk: bool)
    ensures var (after, resp) := EnrollOutcome(b, slug, cwid, nowMillis, seatWriteOk, participationWriteOk);
            var p := ParseClassTerm(slug);
            || (after == b && !resp.Enrolled? && !resp.PlacedOnWaitlist?)
            || (&& p.Some? && resp == Enrolled(p.value.classCode, p.value.term)
                && ClassKey(p.value.term, p.value.classCode) in b.classes
                && SeatFree(b, ClassKey(p.value.term, p.value.classCode))
                && after == TakeSeat(b, p.value, cwid))
            || (&& p.Some? && Admit(b, slug, cwid, seatWriteOk) == AdmitToWaitlist(b, p.value, cwid)
                && var name := WaitlistName(p.value.classCode, p.value.term);
                && AdmitToWaitlist(b, p.value, cwid) == Waitlisting(p.value.term, name, |Members(b.sets, name)|)
                && resp == PlacedOnWaitlist(|Members(b.sets, name)| + 1, WaitlistCapacity)
                && |Members(b.sets, name)| < WaitlistCapacity
                && after == JoinWaitlist(b, p.value.term, name, cwid, nowMillis))
  {
    match ParseClassTerm(slug)
    case None =>
    case Some(ct) =>
      AdmitToClassShape(b, ct, cwid, seatWriteOk);
      AdmitToWaitlistShape(b, ct, cwid);
  }

  // ---------------------------------------------------------------------------
  // Enroll: the handler

  method Enroll(db: DynamoDb, redis: RedisDb, slug: string, cwid: int, nowMillis: int, seatWriteOk: bool, participationWriteOk: bool)
    returns (resp: EnrollResponse)
    modifies db, redis
    ensures (Snapshot(db, redis), resp) == EnrollOutcome(old(Snapshot(db, redis)), slug, cwid, nowMillis, seatWriteOk, participationWriteOk)
  {
    var args := ParseClassTerm(slug);
    if args.None? {
      return InvalidClassTerm;
    }
    resp := EnrollInClass(db, redis, args.value, cwid, nowMillis, seatWriteOk, participationWriteOk);
  }

  /** The handler from the class lookup on, for a parsed slug. */
  method EnrollInClass(db: DynamoDb, redis: RedisDb, ct: ClassTerm, cwid: int, nowMillis: int, seatWriteOk: bool, participationWriteOk: bool)
    returns (resp: EnrollResponse)
    modifies db, redis
    ensures var b := old(Snapshot(db, redis));
            (Snapshot(db, redis), resp) == Conclude(b, AdmitToClass(b, ct, cwid, seatWriteOk), cwid, nowMillis, participationWriteOk)
  {
    ghost var b := Snapshot(db, redis);
    var term, classCode := ct.term, ct.classCode;
    var key := ClassKey(term, classCode);
    var enrollmentSlug := EnrollmentSlug(classCode, cwid);
    if key !in db.classes {
      return ClassNotFound;
    }
    if HasEnrollment(db.enrollments, term, enrollmentSlug) {
      return AlreadyEnrolled;
    }
    var item := db.classes[key];
    var classEnrollmentCount := |ClassEnrollment(db.enrollments, term, classCode)|;
    if classEnrollmentCount < item.roomCapacity && seatWriteOk {
      db.enrollments := db.enrollments + [EnrollmentItem(term, enrollmentSlug, cwid, classCode)];
      db.classes := db.classes[key := item.(enrollmentCount := item.enrollmentCount + 1)];
      assert db.classes == TakeSeat(b, ct, cwid).classes && db.enrollments == TakeSeat(b, ct, cwid).enrollments;
      return Enrolled(classCode, term);
    }
    resp := EnrollOnWaitlist(db, redis, ct, cwid, nowMillis, participationWriteOk);
  }

  /** The handler from the waitlist membership check on. */
  method EnrollOnWaitlist(db: DynamoDb, redis: RedisDb, ct: ClassTerm, cwid: int, nowMillis: int, participationWriteOk: bool)
    returns (resp: EnrollResponse)
    modifies db, redis
    ensures var b := old(Snapshot(db, redis));
            (Snapshot(db, redis), resp) == Conclude(b, AdmitToWaitlist(b, ct, cwid), cwid, nowMillis, participationWriteOk)
  {
    ghost var b := Snapshot(db, redis);
    var term := ct.term;
    var setName := WaitlistName(ct.classCode, term);
    var name := IntToString(cwid);
    if IsMember(Members(redis.sets, setName), name) {
      return AlreadyWaitlisted;
    }
    var pkey := ParticipationKey(cwid, term);
    if pkey in db.participation && db.participation[pkey] >= MaxWaitlistsPerStudent {
      return TooManyWaitlists;
    }
    var waitlistSize := |Members(redis.sets, setName)|;
    if waitlistSize < WaitlistCapacity && participationWriteOk {
      var count := if pkey in db.participation then db.participation[pkey] else 0;
      db.participation := db.participation[pkey := count + 1];
      redis.sets := redis.sets[setName := ZAdd(Members(redis.sets, setName), Member(name, nowMillis))];
      assert db.participation == JoinWaitlist(b, term, setName, cwid, nowMillis).participation;
      assert redis.sets == JoinWaitlist(b, term, setName, cwid, nowMillis).sets;
      return PlacedOnWaitlist(waitlistSize + 1, WaitlistCapacity);
    }
    return ClassFull;
  }

  // ---------------------------------------------------------------------------
  // Enroll: properties

  /** The slug is refused with 400 exactly when it does not split into two parts, and then no store changes. */
  lemma EnrollRejectsBadSlug(b: Backends, slug: string, cwid: int, nowMillis: int, seatWriteOk: bool, participationWriteOk: bool)
    ensures var (after, resp) := EnrollOutcome(b, slug, cwid, nowMillis, seatWriteOk, participationWriteOk);
            (resp == InvalidClassTerm <==> Occurrences(slug, '_') != 1) && (resp == InvalidClassTerm ==> after == b)
  {
    match ParseClassTerm(slug)
    case None =>
    case Some(ct) =>
      AdmitToClassShape(b, ct, cwid, seatWriteOk);
      AdmitToWaitlistShape(b, ct, cwid);
  }

  /** Every error response leaves both stores as they were. */
  lemma EnrollErrorsChangeNothing(b: Backends, slug: string, cwid: int, nowMillis: int, seatWriteOk: bool, participationWriteOk: bool)
    ensures var (after, resp) := EnrollOutcome(b, slug, cwid, nowMillis, seatWriteOk, participationWriteOk);
            resp.Status() >= 400 ==> after == b
  {
    EnrollShapes(b, slug, cwid, nowMillis, seatWriteOk, participationWriteOk);
  }

  /** A missing class is a 404 and, only for an existing class, an existing enrollment of the student is a 409. */
  lemma EnrollCheckOrder(b: Backends, slug: string, cwid: int, nowMillis: int, seatWriteOk: bool, participationWriteOk: bool)
    ensures var (after, resp) := EnrollOutcome(b, slug, cwid, nowMillis, seatWriteOk, participationWriteOk);
            var p := ParseClassTerm(slug);
            && (resp == ClassNotFound <==> p.Some? && ClassKey(p.value.term, p.value.classCode) !in b.classes)
            && (resp == AlreadyEnrolled <==>
                  && p.Some? && ClassKey(p.value.term, p.value.classCode) in b.classes
                  && HasEnrollment(b.enrollments, p.value.term, EnrollmentSlug(p.value.classCode, cwid)))
  {
    match ParseClassTerm(slug)
    case None =>
    case Some(ct) =>
      AdmitToWaitlistShape(b, ct, cwid);
  }

  /**
   For an existing class the student is not enrolled in, and with no seat
   taken (none free, or the write failing), a student already on the
   class's waitlist gets a 409,
   and only then is the participation limit checked: a count at the limit is
   a 403.
   */
  lemma EnrollWaitlistChecks(b: Backends, slug: string, cwid: int, nowMillis: int, seatWriteOk: bool, participationWriteOk: bool)
    ensures var (after, resp) := EnrollOutcome(b, slug, cwid, nowMillis, seatWriteOk, participationWriteOk);
            var p := ParseClassTerm(slug);
            var reached := && p.Some? && ClassKey(p.value.term, p.value.classCode) in b.classes
                           && !HasEnrollment(b.enrollments, p.value.term, EnrollmentSlug(p.value.classCode, cwid))
                           && !(SeatFree(b, ClassKey(p.value.term, p.value.classCode)) && seatWriteOk);
            && (resp == AlreadyWaitlisted <==>
                  reached && IsMember(Members(b.sets, WaitlistName(p.value.classCode, p.value.term)), IntToString(cwid)))
            && (resp == TooManyWaitlists <==>
                  && reached && !IsMember(Members(b.sets, WaitlistName(p.value.classCode, p.value.term)), IntToString(cwid))
                  && ParticipationKey(cwid, p.value.term) in b.participation
                  && b.participation[ParticipationKey(cwid, p.value.term)] >= MaxWaitlistsPerStudent)
  {
    match ParseClassTerm(slug)
    case None =>
    case Some(ct) =>
      AdmitToClassShape(b, ct, cwid, seatWriteOk);
      AdmitToWaitlistShape(b, ct, cwid);
  }

  /**
   An enrollment happens only into a class with a free seat, writes exactly
   one enrollment item for the student and raises that class's count by one;
   every other class, the participation counts and the waitlists stay.
   */
  lemma EnrollTakesOneSeat(b: Backends, slug: string, cwid: int, nowMillis: int, seatWriteOk: bool, participationWriteOk: bool)
    ensures var (after, resp) := EnrollOutcome(b, slug, cwid, nowMillis, seatWriteOk, participationWriteOk);
            var p := ParseClassTerm(slug);
            resp.Enrolled? ==>
              && p.Some? && resp == Enrolled(p.value.classCode, p.value.term)
              && var key := ClassKey(p.value.term, p.value.classCode);
              && key in b.classes && key in after.classes
              && |ClassEnrollment(b.enrollments, key.term, key.classCode)| < b.classes[key].roomCapacity
              && after.enrollments == b.enrollments + [EnrollmentItem(key.term, EnrollmentSlug(key.classCode, cwid), cwid, key.classCode)]
              && after.classes[key] == b.classes[key].(enrollmentCount := b.classes[key].enrollmentCount + 1)
              && (forall k :: k in b.classes && k != key ==> k in after.classes && after.classes[k] == b.classes[k])
              && after.classes.Keys == b.classes.Keys
              && after.participation == b.participation && after.sets == b.sets && after.dropped == b.dropped
    ensures var (after, resp) := EnrollOutcome(b, slug, cwid, nowMillis, seatWriteOk, participationWriteOk);
            var p := ParseClassTerm(slug);
            && p.Some? && ClassKey(p.value.term, p.value.classCode) in b.classes
            && !HasEnrollment(b.enrollments, p.value.term, EnrollmentSlug(p.value.classCode, cwid))
            && SeatFree(b, ClassKey(p.value.term, p.value.classCode)) && seatWriteOk
            ==> resp == Enrolled(p.value.classCode, p.value.term)
  {
    EnrollShapes(b, slug, cwid, nowMillis, seatWriteOk, participationWriteOk);
  }

  /** Each class's enrollment count equals its number of enrollment items, and no class is over its room capacity. */
  predicate SeatsConsistent(b: Backends) {
    forall k :: k in b.classes ==>
      |ClassEnrollment(b.enrollments, k.term, k.classCode)| == b.classes[k].enrollmentCount <= b.classes[k].roomCapacity
  }

  lemma EnrollKeepsSeatsConsistent(b: Backends, slug: string, cwid: int, nowMillis: int, seatWriteOk: bool, participationWriteOk: bool)
    requires SeatsConsistent(b)
    ensures SeatsConsistent(EnrollOutcome(b, slug, cwid, nowMillis, seatWriteOk, participationWriteOk).0)
  {
    EnrollShapes(b, slug, cwid, nowMillis, seatWriteOk, participationWriteOk);
    var after := EnrollOutcome(b, slug, cwid, nowMillis, seatWriteOk, participationWriteOk).0;
    if after != b {
      match Admit(b, slug, cwid, seatWriteOk)
      case Decided(_, _) =>
        var ct := ParseClassTerm(slug).value;
        var x := EnrollmentItem(ct.term, EnrollmentSlug(ct.classCode, cwid), cwid, ct.classCode);
        forall k | k in after.classes
          ensures |ClassEnrollment(after.enrollments, k.term, k.classCode)| == after.classes[k].enrollmentCount <= after.classes[k].roomCapacity
        {
          ClassEnrollmentAppend(b.enrollments, x, k.term, k.classCode);
        }
      case Waitlisting(_, _, _) =>
    }
  }

  /** No waitlist holds more than the capacity. */
  predicate WaitlistsBounded(b: Backends) {
    forall name :: name in b.sets ==> |b.sets[name]| <= WaitlistCapacity
  }

  lemma EnrollKeepsWaitlistsBounded(b: Backends, slug: string, cwid: int, nowMillis: int, seatWriteOk: bool, participationWriteOk: bool)
    requires WaitlistsBounded(b)
    ensures WaitlistsBounded(EnrollOutcome(b, slug, cwid, nowMillis, seatWriteOk, participationWriteOk).0)
  {
    EnrollShapes(b, slug, cwid, nowMillis, seatWriteOk, participationWriteOk);
  }

  /** No student takes part in more than the allowed number of waitlists in a term. */
  predicate ParticipationBounded(b: Backends) {
    forall k :: k in b.participation ==> b.participation[k] <= MaxWaitlistsPerStudent
  }

  lemma EnrollKeepsParticipationBounded(b: Backends, slug: string, cwid: int, nowMillis: int, seatWriteOk: bool, participationWriteOk: bool)
    requires ParticipationBounded(b)
    ensures ParticipationBounded(EnrollOutcome(b, slug, cwid, nowMillis, seatWriteOk, participationWriteOk).0)
  {
    EnrollShapes(b, slug, cwid, nowMillis, seatWriteOk, participationWriteOk);
  }

  /** Every waitlist is a well-formed sorted set. */
  predicate SetsWellFormed(b: Backends) {
    forall name :: name in b.sets ==> WellFormedSet(b.sets[name])
  }

  lemma EnrollKeepsSetsWellFormed(b: Backends, slug: string, cwid: int, nowMillis: int, seatWriteOk: bool, participationWriteOk: bool)
    requires SetsWellFormed(b)
    ensures SetsWellFormed(EnrollOutcome(b, slug, cwid, nowMillis, seatWriteOk, participationWriteOk).0)
  {
    EnrollShapes(b, slug, cwid, nowMillis, seatWriteOk, participationWriteOk);
    var (after, resp) := EnrollOutcome(b, slug, cwid, nowMillis, seatWriteOk, participationWriteOk);
    if resp.PlacedOnWaitlist? {
      var ct := ParseClassTerm(slug).value;
      var name := WaitlistName(ct.classCode, ct.term);
      var m := Member(IntToString(cwid), nowMillis);
      assert !IsMember(Members(b.sets, name), m.name);
      ZAddKeepsWellFormed(Members(b.sets, name), m);
      assert after.sets == b.sets[name := ZAdd(Members(b.sets, name), m)];
    }
  }

  /**
   Going on the waitlist: the reported position is the new size of the
   class's set, out of the capacity; the student was not on it and now is;
   their participation count for the term was below the limit and rose by
   one; enrollments, classes and the other sets stay.
   */
  lemma EnrollWaitlistPlacement(b: Backends, slug: string, cwid: int, nowMillis: int, seatWriteOk: bool, participationWriteOk: bool)
    ensures var (after, resp) := EnrollOutcome(b, slug, cwid, nowMillis, seatWriteOk, participationWriteOk);
            var p := ParseClassTerm(slug);
            resp.PlacedOnWaitlist? ==>
              && p.Some?
              && var name := WaitlistName(p.value.classCode, p.value.term);
              && var pkey := ParticipationKey(cwid, p.value.term);
              && resp.position == |Members(after.sets, name)| == |Members(b.sets, name)| + 1
              && resp.position <= WaitlistCapacity && resp.capacity == WaitlistCapacity
              && !IsMember(Members(b.sets, name), IntToString(cwid))
              && IsMember(Members(after.sets, name), IntToString(cwid))
              && (pkey in b.participation ==> b.participation[pkey] < MaxWaitlistsPerStudent)
              && pkey in after.participation
              && after.participation[pkey] == (if pkey in b.participation then b.participation[pkey] else 0) + 1
              && (forall k :: k in b.participation && k != pkey ==> k in after.participation && after.participation[k] == b.participation[k])
              && (forall n :: n in b.sets && n != name ==> n in after.sets && after.sets[n] == b.sets[n])
              && after.enrollments == b.enrollments && after.classes == b.classes && after.dropped == b.dropped
  {
    EnrollShapes(b, slug, cwid, nowMillis, seatWriteOk, participationWriteOk);
    var (after, resp) := EnrollOutcome(b, slug, cwid, nowMillis, seatWriteOk, participationWriteOk);
    if resp.PlacedOnWaitlist? {
      var ct := ParseClassTerm(slug).value;
      var name := WaitlistName(ct.classCode, ct.term);
      var m := Member(IntToString(cwid), nowMillis);
      ZAddMembers(Members(b.sets, name), m, m);
      var zs := Members(after.sets, name);
      var i :| 0 <= i < |zs| && zs[i] == m;
    }
  }

  /** A student who joins later than everyone on the set is ranked last, so the reported position is one past their rank. */
  lemma EnrollPositionIsRank(b: Backends, slug: string, cwid: int, nowMillis: int, seatWriteOk: bool, participationWriteOk: bool)
    requires ParseClassTerm(slug).Some? ==>
               var zs := Members(b.sets, WaitlistName(ParseClassTerm(slug).value.classCode, ParseClassTerm(slug).value.term));
               forall i :: 0 <= i < |zs| ==> zs[i].score < nowMillis
    ensures var (after, resp) := EnrollOutcome(b, slug, cwid, nowMillis, seatWriteOk, participationWriteOk);
            var p := ParseClassTerm(slug);
            resp.PlacedOnWaitlist? ==>
              && p.Some?
              && var name := WaitlistName(p.value.classCode, p.value.term);
              && Members(after.sets, name) == Members(b.sets, name) + [Member(IntToString(cwid), nowMillis)]
              && resp.position == |Members(b.sets, name)| + 1
              && Members(after.sets, name)[resp.position - 1] == Member(IntToString(cwid), nowMillis)
  {
    EnrollShapes(b, slug, cwid, nowMillis, seatWriteOk, participationWriteOk);
    var (after, resp) := EnrollOutcome(b, slug, cwid, nowMillis, seatWriteOk, participationWriteOk);
    if resp.PlacedOnWaitlist? {
      var ct := ParseClassTerm(slug).value;
      var name := WaitlistName(ct.classCode, ct.term);
      ZAddLatestGoesLast(Members(b.sets, name), Member(IntToString(cwid), nowMillis));
    }
  }

  /** The handler as written agrees with the corrected one on every request decided before the waitlist. */
  lemma EnrollAsWrittenAgreesBeforeWaitlist(b: Backends, slug: string, cwid: int, nowMillis: int, seatWriteOk: bool, participationWriteOk: bool)
    requires Admit(b, slug, cwid, seatWriteOk).Decided?
    ensures EnrollAsWritten(b, slug, cwid, seatWriteOk) == EnrollOutcome(b, slug, cwid, nowMillis, seatWriteOk, participationWriteOk)
  {
  }

  /**
   As written, a request that reaches the waitlist never joins it: below
   capacity it fails with a 500 where the corrected handler places the
   student, and at capacity it answers 200 where a 400 is meant.
   */
  lemma EnrollAsWrittenNeverWaitlists(b: Backends, slug: string, cwid: int, nowMillis: int, seatWriteOk: bool)
    requires Admit(b, slug, cwid, seatWriteOk).Waitlisting?
    ensures var (after, resp) := EnrollAsWritten(b, slug, cwid, seatWriteOk);
            && after == b && !resp.PlacedOnWaitlist?
            && (Admit(b, slug, cwid, seatWriteOk).size < WaitlistCapacity ==>
                  resp.Status() == 500 && EnrollOutcome(b, slug, cwid, nowMillis, seatWriteOk, true).1.PlacedOnWaitlist?)
            && (Admit(b, slug, cwid, seatWriteOk).size >= WaitlistCapacity ==>
                  resp.Status() == 200 && EnrollOutcome(b, slug, cwid, nowMillis, seatWriteOk, true).1 == ClassFull)
  {
    var a := Admit(b, slug, cwid, seatWriteOk);
    assert EnrollAsWritten(b, slug, cwid, seatWriteOk) == (b, if a.size < WaitlistCapacity then UndefinedName else ClassFullReturned);
    assert EnrollOutcome(b, slug, cwid, nowMillis, seatWriteOk, true) == Conclude(b, a, cwid, nowMillis, true);
  }

  /**
   Corrected, a request that reaches the waitlist is refused as full (400,
   nothing changes) exactly when the waitlist is at capacity or the
   participation update fails; otherwise the student is placed.
   */
  lemma EnrollFullIsError(b: Backends, slug: string, cwid: int, nowMillis: int, seatWriteOk: bool, participationWriteOk: bool)
    requires Admit(b, slug, cwid, seatWriteOk).Waitlisting?
    ensures var (after, resp) := EnrollOutcome(b, slug, cwid, nowMillis, seatWriteOk, participationWriteOk);
            && (resp == ClassFull <==> Admit(b, slug, cwid, seatWriteOk).size >= WaitlistCapacity || !participationWriteOk)
            && (resp == ClassFull ==> resp.Status() == 400 && after == b)
            && (resp != ClassFull ==> resp == PlacedOnWaitlist(Admit(b, slug, cwid, seatWriteOk).size + 1, WaitlistCapacity))
  {
  }

  /**
   A concrete request that shows it: student 7 asks for class "C" of term "F",
   which exists with no seats, and the waitlist is empty.
   */
  lemma EnrollAsWrittenExample()
    ensures var b := Backends(map[ClassKey("F", "C") := ClassItem(0, 1, 0)], [], map[], [], map[]);
            && EnrollAsWritten(b, "F_C", 7, true).1 == UndefinedName
            && EnrollOutcome(b, "F_C", 7, 1000, true, true).1 == PlacedOnWaitlist(1, WaitlistCapacity)
  {
    var b := Backends(map[ClassKey("F", "C") := ClassItem(0, 1, 0)], [], map[], [], map[]);
    var ct := ClassTerm("F", "C");
    assert "F" + "_" + "C" == "F_C";
    ParseClassTermOfFormat("F", "C");
    var key := ClassKey("F", "C");
    assert key in b.classes && !SeatFree(b, key);
    assert !HasEnrollment(b.enrollments, "F", EnrollmentSlug("C", 7));
    var name := WaitlistName("C", "F");
    assert Members(b.sets, name) == [];
    assert AdmitToWaitlist(b, ct, 7) == Waitlisting("F", name, 0);
    assert AdmitToClass(b, ct, 7, true) == Waitlisting("F", name, 0);
    assert Admit(b, "F_C", 7, true) == Waitlisting("F", name, 0);
  }

  // ---------------------------------------------------------------------------
  // The sqlite endpoints

  /** A student's own drop: the DELETE has no extra condition and the droplist row is not administrative. */
  method DropClass(db: Connection, classId: int, studentId: int, now: int, insertOk: bool,
                   autoEnrollEnabled: bool, autoEnroll: (Tables, seq<int>) -> Tables)
    returns (resp: DeleteResponse)
    modifies db
    ensures (db.tables, resp) == DropStep(old(db.tables), classId, studentId, true, false, now, insertOk, autoEnrollEnabled, autoEnroll)
  {
    resp := Drop(db, classId, studentId, true, false, now, insertOk, autoEnrollEnabled, autoEnroll);
  }

  datatype PositionResponse = AtPosition(position: nat) | PositionNotFound
  {
    function Status(): int {
      if AtPosition? then 200 else 404
    }
  }

  /** The position query: a student not on the class's waitlist counts 0, which is a 404. */
  function GetCurrentWaitlistPosition(t: Tables, classId: int, studentId: int): (r: PositionResponse)
    ensures r.PositionNotFound? <==> forall i :: 0 <= i < |t.waitlist| ==> !Matches(t.waitlist[i], classId, studentId)
    ensures r.AtPosition? ==> 1 <= r.position <= ClassSize(t.waitlist, classId)
  {
    PositionBounds(t.waitlist, classId, studentId);
    var n := Position(t.waitlist, classId, studentId);
    if n == 0 then PositionNotFound else AtPosition(n)
  }

  /** Removal from a waitlist with the delete committed. */
  function RemoveFromWaitlistOutcome(t: Tables, classId: int, studentId: int): (r: (Tables, DeleteResponse))
    ensures r.1 != IntegrityConflict
    ensures r.1 == RecordNotFound <==> forall i :: 0 <= i < |t.waitlist| ==> !Matches(t.waitlist[i], classId, studentId)
    ensures r.1 == RecordNotFound ==> r.0 == t
  {
    if CountMatching(t.waitlist, classId, studentId) == 0 then (t, RecordNotFound)
    else (t.(waitlist := DeleteMatching(t.waitlist, classId, studentId)), ItemDeleted)
  }

  /** Removal as written: the same response, but the delete is never committed. */
  function RemoveFromWaitlistAsWrittenOutcome(t: Tables, classId: int, studentId: int): (r: (Tables, DeleteResponse))
    ensures r.0 == t
    ensures r.1 == RecordNotFound <==> forall i :: 0 <= i < |t.waitlist| ==> !Matches(t.waitlist[i], classId, studentId)
  {
    (t, RemoveFromWaitlistOutcome(t, classId, studentId).1)
  }

  method RemoveFromWaitlist(db: Connection, classId: int, studentId: int) returns (resp: DeleteResponse)
    modifies db
    ensures (db.tables, resp) == RemoveFromWaitlistOutcome(old(db.tables), classId, studentId)
  {
    var pending := db.tables;
    var rowcount := CountMatching(pending.waitlist, classId, studentId);
    pending := pending.(waitlist := DeleteMatching(pending.waitlist, classId, studentId));
    if rowcount == 0 {
      return RecordNotFound;
    }
    db.tables := pending;
    return ItemDeleted;
  }

  method RemoveFromWaitlistAsWritten(db: Connection, classId: int, studentId: int) returns (resp: DeleteResponse)
    modifies db
    ensures (db.tables, resp) == RemoveFromWaitlistAsWrittenOutcome(old(db.tables), classId, studentId)
  {
    var pending := db.tables;
    var rowcount := CountMatching(pending.waitlist, classId, studentId);
    pending := pending.(waitlist := DeleteMatching(pending.waitlist, classId, studentId));
    if rowcount == 0 {
      return RecordNotFound;
    }
    return ItemDeleted;
  }

  /**
   Removal reports 404 exactly when the student is not on the class's
   waitlist; otherwise only that student's rows of that class go, so their
   position query then answers 404, every other student of the class keeps a
   place no later than before, and the other tables stay.
   */
  lemma RemoveFromWaitlistEffect(t: Tables, classId: int, studentId: int, other: int)
    ensures var (after, resp) := RemoveFromWaitlistOutcome(t, classId, studentId);
            && (resp == RecordNotFound <==> GetCurrentWaitlistPosition(t, classId, studentId).PositionNotFound?)
            && (resp == RecordNotFound ==> after == t)
            && GetCurrentWaitlistPosition(after, classId, studentId).PositionNotFound?
            && (forall x :: x in after.waitlist <==> x in t.waitlist && !Matches(x, classId, studentId))
            && (other != studentId ==> Position(after.waitlist, classId, other) <= Position(t.waitlist, classId, other))
            && (other != studentId && Position(t.waitlist, classId, other) > 0 ==> Position(after.waitlist, classId, other) > 0)
            && after.classes == t.classes && after.enrollment == t.enrollment && after.droplist == t.droplist
  {
    RemovalPositions(t.waitlist, classId, studentId, other);
  }

  /** As written, a reported removal leaves the student on the waitlist at the same position. */
  lemma RemoveFromWaitlistAsWrittenKeepsPosition(t: Tables, classId: int, studentId: int)
    ensures var (after, resp) := RemoveFromWaitlistAsWrittenOutcome(t, classId, studentId);
            resp == ItemDeleted ==>
              && GetCurrentWaitlistPosition(after, classId, studentId) == GetCurrentWaitlistPosition(t, classId, studentId)
              && GetCurrentWaitlistPosition(after, classId, studentId).AtPosition?
  {
  }
}
