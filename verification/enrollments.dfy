/** The enrollment service: enrolling and dropping, with the catalog service's
    answers as inputs, and the lookups that guard on the course or the student
    first. The catalog's answer to `GET /api/courses/{id}` is a parameter; the
    `PUT` that follows is returned as a `SeatUpdate` for the caller to send. */
module Enrollments {
  import opened Prelude
  import opened JavaInt
  import opened Seqs
  import opened EnrollmentStore
  import Students

  /** The two fields of the catalog's course body that enrolling reads. */
  datatype Seats = Seats(capacity: Int32, enrolled: Int32)

  /** The status codes `RestTemplate` raises as an `HttpClientErrorException`. */
  type ClientErrorStatus = x: int | 400 <= x < 500 witness 404

  /** What the catalog's `GET /api/courses/{id}` gives the enrollment service. */
  datatype CourseReply =
      /** An HTTP 200 whose `data` field is the course, or null when the
          catalog wraps its "Course not found" in a successful response. */
    | Body(data: Option<Seats>)
      /** A 4xx response, which surfaces as an `HttpClientErrorException`. */
    | HttpError(status: ClientErrorStatus)
      /** A 5xx response, a transport failure or an unreadable body. */
    | Unreachable

  /** The enrollment body a client posts; status, id and time are the server's. */
  datatype EnrollRequest = EnrollRequest(courseId: string, studentId: string)

  /** The enrolled count the service asks the catalog to store. */
  datatype SeatUpdate = SeatUpdate(courseId: string, enrolled: Int32)

  /** Every exception the enrollment service raises, one per throw site. */
  datatype EnrollError =
    | CourseNotFound      // "Course not found with id" / ResourceNotFoundException("Course", id)
    | CatalogCallFailed   // a non-404 client error from the catalog
    | CatalogUnavailable  // an exception the service does not translate, or its catch-all
    | StudentNotFound     // "Student not found with studentId"
    | DuplicateEnrollment // IllegalArgumentException "Duplicate enrollment"
    | CapacityExceeded    // IllegalArgumentException "Course capacity exceeded"
    | EnrollmentNotFound  // "Enrollment not found with id"
    | AlreadyDropped      // IllegalArgumentException "Enrollment already dropped"
  {
    /** The exception's class: an `IllegalArgumentException` is a `Conflict`,
        any other `RuntimeException` is `NotFound`. The enroll handler answers
        them 400 and 404; the drop handler answers both 404. */
    function Kind(): ErrorKind {
      match this
      case DuplicateEnrollment | CapacityExceeded | AlreadyDropped => Conflict
      case _ => NotFound
    }
  }

  datatype EnrollOutcome = EnrollOutcome(table: Table, enrollment: Enrollment, seatUpdate: SeatUpdate)

  datatype DropOutcome = DropOutcome(table: Table, seatUpdate: Option<SeatUpdate>)

  /** `@NotBlank` on the request's course and student. */
  predicate ValidRequest(req: EnrollRequest) {
    WellFormed(Enrollment("", req.courseId, req.studentId, Active, Instant(0)))
  }

  /** The seats of a course the catalog reports, or the error enrolling raises
      for every other reply. */
  function ResolveCourse(reply: CourseReply): (r: Result<Seats, EnrollError>)
    ensures r.Success? <==> reply.Body? && reply.data.Some?
    ensures r.Success? ==> r.value == reply.data.value
    ensures r == Failure(CourseNotFound) <==> reply == Body(None) || reply == HttpError(404)
  {
    match reply
    case Body(None) => Failure(CourseNotFound)
    case Body(Some(seats)) => Success(seats)
    case HttpError(status) => if status == 404 then Failure(CourseNotFound) else Failure(CatalogCallFailed)
    case Unreachable => Failure(CatalogUnavailable)
  }

  /** `enrollCourse`: the course must resolve, then the student number must
      belong to a student, then the pair must not be enrolled in any status,
      then a seat must be free by the catalog's own count. The record is saved
      ACTIVE and the catalog is asked to store one more seat taken. */
  function EnrollCourse(t: Table, students: Students.StudentTable, req: EnrollRequest,
                        reply: CourseReply, freshId: string, now: Instant): (r: Result<EnrollOutcome, EnrollError>)
    requires !HasId(t, freshId)
    ensures ResolveCourse(reply).Failure? ==> r == Failure(ResolveCourse(reply).error)
    ensures ResolveCourse(reply).Success? && !Students.StudentIdTaken(students, req.studentId) ==>
              r == Failure(StudentNotFound)
    ensures r == Failure(DuplicateEnrollment) <==>
              ResolveCourse(reply).Success? && Students.StudentIdTaken(students, req.studentId)
              && PairTaken(t, req.courseId, req.studentId)
    ensures r == Failure(CapacityExceeded) <==>
              ResolveCourse(reply).Success? && Students.StudentIdTaken(students, req.studentId)
              && !PairTaken(t, req.courseId, req.studentId)
              && reply.data.value.enrolled >= reply.data.value.capacity
    ensures r.Success? <==>
              reply.Body? && reply.data.Some? && Students.StudentIdTaken(students, req.studentId)
              && !PairTaken(t, req.courseId, req.studentId)
              && reply.data.value.enrolled < reply.data.value.capacity
    ensures r.Success? ==>
              && r.value.enrollment == Enrollment(freshId, req.courseId, req.studentId, Active, now)
              && r.value.table == t + [r.value.enrollment]
              && r.value.seatUpdate == SeatUpdate(req.courseId, reply.data.value.enrolled + 1)
  {
    match ResolveCourse(reply)
    case Failure(err) => Failure(err)
    case Success(seats) =>
      if !Students.ExistsByStudentId(students, req.studentId) then Failure(StudentNotFound)
      else if ExistsByCourseIdAndStudentId(t, req.courseId, req.studentId) then Failure(DuplicateEnrollment)
      else if seats.enrolled >= seats.capacity then Failure(CapacityExceeded)
      else
        var e := Enrollment(freshId, req.courseId, req.studentId, Active, now);
        Success(EnrollOutcome(t + [e], e, SeatUpdate(req.courseId, Wrap(seats.enrolled + 1))))
  }

  /** The count `dropCourse` asks the catalog to store: `Math.max(0, enrolled - 1)`
      on Java ints, where `Integer.MIN_VALUE - 1` wraps to `Integer.MAX_VALUE`. */
  function SeatsAfterDrop(enrolled: Int32): (n: Int32)
    ensures n >= 0
    ensures enrolled > 0 ==> n == enrolled - 1
    ensures -0x8000_0000 < enrolled <= 0 ==> n == 0
    ensures enrolled == -0x8000_0000 ==> n == 0x7fff_ffff
  {
    DecrementWrapsOnlyAtMin(enrolled);
    Max(0, Wrap(enrolled - 1))
  }

  /** `dropCourse(id)`: the enrollment must exist and not be DROPPED already;
      its status becomes DROPPED. The catalog is then read again and, only if
      it answers with the course, asked to store one seat fewer; any failure
      there is swallowed. */
  function DropCourse(t: Table, id: string, reply: CourseReply): (r: Result<DropOutcome, EnrollError>)
    ensures r == Failure(EnrollmentNotFound) <==> !HasId(t, id)
    ensures r == Failure(AlreadyDropped) <==> HasId(t, id) && FindById(t, id).value.status == Dropped
    ensures r.Success? <==> HasId(t, id) && FindById(t, id).value.status != Dropped
    ensures r.Success? ==>
              exists i :: 0 <= i < |t| && t[i].id == id && t[i].status != Dropped
                && r.value.table == t[i := t[i].(status := Dropped)]
                && r.value.seatUpdate ==
                     (if reply.Body? && reply.data.Some?
                      then Some(SeatUpdate(t[i].courseId, SeatsAfterDrop(reply.data.value.enrolled)))
                      else None)
  {
    match IndexWhere(t, (e: Enrollment) => e.id == id)
    case None => Failure(EnrollmentNotFound)
    case Some(i) =>
      if t[i].status == Dropped then Failure(AlreadyDropped)
      else
        var seatUpdate :=
          match reply
          case Body(Some(seats)) => Some(SeatUpdate(t[i].courseId, SeatsAfterDrop(seats.enrolled)))
          case _ => None;
        Success(DropOutcome(t[i := t[i].(status := Dropped)], seatUpdate))
  }

  /** `findEnrollmentsByCourseId`: any successful catalog response counts as
      the course existing, whatever its body says; only a 404 status, another
      client error or a failed call stops the lookup. */
  function FindEnrollmentsByCourseId(t: Table, courseId: string, reply: CourseReply): (r: Result<seq<Enrollment>, EnrollError>)
    ensures r.Success? <==> reply.Body?
    ensures r.Success? ==> forall e :: e in r.value <==> e in t && e.courseId == courseId
    ensures r == Failure(CourseNotFound) <==> reply == HttpError(404)
    ensures r == Failure(CatalogCallFailed) <==> reply.HttpError? && reply.status != 404
    ensures r == Failure(CatalogUnavailable) <==> reply.Unreachable?
  {
    match reply
    case Body(_) => Success(FindByCourseId(t, courseId))
    case HttpError(status) => if status == 404 then Failure(CourseNotFound) else Failure(CatalogCallFailed)
    case Unreachable => Failure(CatalogUnavailable)
  }

  /** `findEnrollmentsByStudentId`: the student number must belong to a student. */
  function FindEnrollmentsByStudentId(t: Table, students: Students.StudentTable, studentId: string): (r: Result<seq<Enrollment>, EnrollError>)
    ensures r.Failure? <==> !Students.StudentIdTaken(students, studentId)
    ensures r.Failure? ==> r.error == StudentNotFound
    ensures r.Success? ==> forall e :: e in r.value <==> e in t && e.studentId == studentId
  {
    if Students.FindByStudentId(students, studentId).None? then Failure(StudentNotFound)
    else Success(FindByStudentId(t, studentId))
  }

  /** `findEnrollmentsByStudentIdAndStatus`: the same guard, then the status filter. */
  function FindEnrollmentsByStudentIdAndStatus(t: Table, students: Students.StudentTable, studentId: string,
                                               status: EnrollmentStatus): (r: Result<seq<Enrollment>, EnrollError>)
    ensures r.Failure? <==> !Students.StudentIdTaken(students, studentId)
    ensures r.Failure? ==> r.error == StudentNotFound
    ensures r.Success? ==> forall e :: e in r.value <==> e in t && e.studentId == studentId && e.status == status
  {
    if Students.FindByStudentId(students, studentId).None? then Failure(StudentNotFound)
    else Success(FindByStudentIdAndStatus(t, studentId, status))
  }

  // ---------------------------------------------------------------------
  // Properties of the enrollment lifecycle
  // ---------------------------------------------------------------------

  /** Enrolling keeps ids unique and at most one record per (course, student). */
  lemma EnrollPreservesInvariant(t: Table, students: Students.StudentTable, req: EnrollRequest,
                                 reply: CourseReply, freshId: string, now: Instant)
    requires Invariant(t) && ValidRequest(req) && !HasId(t, freshId)
    ensures EnrollCourse(t, students, req, reply, freshId, now).Success? ==>
              Invariant(EnrollCourse(t, students, req, reply, freshId, now).value.table)
  {
    var r := EnrollCourse(t, students, req, reply, freshId, now);
    if r.Success? {
      InsertPreservesInvariant(t, r.value.enrollment);
    }
  }

  /** Dropping keeps the table's invariant. */
  lemma DropPreservesInvariant(t: Table, id: string, reply: CourseReply)
    requires Invariant(t)
    ensures DropCourse(t, id, reply).Success? ==> Invariant(DropCourse(t, id, reply).value.table)
  {
    var r := DropCourse(t, id, reply);
    if r.Success? {
      var i :| 0 <= i < |t| && t[i].id == id && r.value.table == t[i := t[i].(status := Dropped)];
      StatusChangePreservesInvariant(t, i, Dropped);
    }
  }

  /** An enrollment enrolls exactly one more ACTIVE seat in the local table for
      its course, and the seat count it sends the catalog is the catalog's own
      count plus one, which cannot overflow because a seat was free. */
  lemma EnrollTakesOneSeat(t: Table, students: Students.StudentTable, req: EnrollRequest,
                           reply: CourseReply, freshId: string, now: Instant)
    requires !HasId(t, freshId)
    requires EnrollCourse(t, students, req, reply, freshId, now).Success?
    ensures CountByCourseIdAndStatus(EnrollCourse(t, students, req, reply, freshId, now).value.table, req.courseId, Active)
              == CountByCourseIdAndStatus(t, req.courseId, Active) + 1
    ensures EnrollCourse(t, students, req, reply, freshId, now).value.seatUpdate.enrolled
              <= reply.data.value.capacity
  {
    var r := EnrollCourse(t, students, req, reply, freshId, now);
    CountAppend(t, r.value.enrollment, OfCourseWithStatus(req.courseId, Active));
  }

  /** Dropping an ACTIVE enrollment frees exactly one ACTIVE seat of its
      course; dropping a COMPLETED one leaves the ACTIVE count alone. */
  lemma DropFreesOneSeat(t: Table, id: string, reply: CourseReply)
    requires UniqueIds(t)
    requires DropCourse(t, id, reply).Success?
    ensures var e := FindById(t, id).value;
            CountByCourseIdAndStatus(DropCourse(t, id, reply).value.table, e.courseId, Active)
              == CountByCourseIdAndStatus(t, e.courseId, Active) - (if e.status == Active then 1 else 0)
  {
    var r := DropCourse(t, id, reply);
    var i :| 0 <= i < |t| && t[i].id == id && t[i].status != Dropped
               && r.value.table == t[i := t[i].(status := Dropped)];
    var e := FindById(t, id).value;
    var k :| 0 <= k < |t| && t[k] == e;
    assert k == i;
    CountUpdate(t, i, t[i].(status := Dropped), OfCourseWithStatus(e.courseId, Active));
  }

  /** DROPPED is final: dropping a dropped enrollment again is refused. */
  lemma DroppedIsTerminal(t: Table, i: nat, reply: CourseReply)
    requires UniqueIds(t) && i < |t| && t[i].status == Dropped
    ensures DropCourse(t, t[i].id, reply) == Failure(AlreadyDropped)
  {
    var e := FindById(t, t[i].id).value;
    var k :| 0 <= k < |t| && t[k] == e;
    assert k == i;
  }

  /** A second drop of the same enrollment always fails, whatever the catalog said. */
  lemma DropTwiceFails(t: Table, id: string, reply1: CourseReply, reply2: CourseReply)
    requires UniqueIds(t)
    requires DropCourse(t, id, reply1).Success?
    ensures DropCourse(DropCourse(t, id, reply1).value.table, id, reply2) == Failure(AlreadyDropped)
  {
    var u := DropCourse(t, id, reply1).value.table;
    var i :| 0 <= i < |t| && t[i].id == id && t[i].status != Dropped && u == t[i := t[i].(status := Dropped)];
    assert UniqueIds(u);
    DroppedIsTerminal(u, i, reply2);
  }

  /** A student who dropped a course cannot enroll in it again: the record
      stays and the duplicate check ignores status. Once the course and the
      student resolve, the refusal is the duplicate error. */
  lemma ReEnrollAfterDropRejected(t: Table, id: string, dropReply: CourseReply,
                                  students: Students.StudentTable, reply: CourseReply,
                                  freshId: string, now: Instant)
    requires DropCourse(t, id, dropReply).Success?
    requires !HasId(DropCourse(t, id, dropReply).value.table, freshId)
    ensures var u := DropCourse(t, id, dropReply).value.table;
            var e := FindById(t, id).value;
            EnrollCourse(u, students, EnrollRequest(e.courseId, e.studentId), reply, freshId, now).Failure?
    ensures var u := DropCourse(t, id, dropReply).value.table;
            var e := FindById(t, id).value;
            ResolveCourse(reply).Success? && Students.StudentIdTaken(students, e.studentId) ==>
              EnrollCourse(u, students, EnrollRequest(e.courseId, e.studentId), reply, freshId, now)
                == Failure(DuplicateEnrollment)
  {
    var u := DropCourse(t, id, dropReply).value.table;
    var i :| 0 <= i < |t| && t[i].id == id && t[i].status != Dropped && u == t[i := t[i].(status := Dropped)];
    var e := FindById(t, id).value;
    var k :| 0 <= k < |t| && t[k] == e;
    assert u[k].courseId == e.courseId && u[k].studentId == e.studentId;
    assert PairTaken(u, e.courseId, e.studentId);
  }

  /** Neither operation ever makes an enrollment COMPLETED: every COMPLETED
      record after a call was already in the table before it. */
  lemma NothingAssignsCompleted(t: Table, students: Students.StudentTable, req: EnrollRequest,
                                reply: CourseReply, freshId: string, now: Instant, id: string)
    requires !HasId(t, freshId)
    ensures EnrollCourse(t, students, req, reply, freshId, now).Success? ==>
              forall e :: e in EnrollCourse(t, students, req, reply, freshId, now).value.table && e.status == Completed ==> e in t
    ensures DropCourse(t, id, reply).Success? ==>
              forall e :: e in DropCourse(t, id, reply).value.table && e.status == Completed ==> e in t
  {
    var d := DropCourse(t, id, reply);
    if d.Success? {
      var i :| 0 <= i < |t| && t[i].id == id && t[i].status != Dropped
                 && d.value.table == t[i := t[i].(status := Dropped)];
      forall e | e in d.value.table && e.status == Completed
        ensures e in t
      {
        var k :| 0 <= k < |d.value.table| && d.value.table[k] == e;
        assert k != i;
        assert t[k] == e;
      }
    }
  }

  /** A COMPLETED enrollment is not protected: dropping it succeeds. */
  lemma CompletedIsDroppable(t: Table, i: nat, reply: CourseReply)
    requires UniqueIds(t) && i < |t| && t[i].status == Completed
    ensures DropCourse(t, t[i].id, reply).Success?
    ensures DropCourse(t, t[i].id, reply).value.table[i].status == Dropped
  {
    var e := FindById(t, t[i].id).value;
    var k :| 0 <= k < |t| && t[k] == e;
    assert k == i;
  }

  /** The drop-time seat update is sent only when the catalog answered with
      the course, and it never asks for a negative count. */
  lemma DropSeatUpdateNeverNegative(t: Table, id: string, reply: CourseReply)
    requires DropCourse(t, id, reply).Success?
    ensures DropCourse(t, id, reply).value.seatUpdate.Some? <==> reply.Body? && reply.data.Some?
    ensures DropCourse(t, id, reply).value.seatUpdate.Some? ==> DropCourse(t, id, reply).value.seatUpdate.value.enrolled >= 0
  {
  }

  /** The course lookup passes for a course the catalog does not have, as long
      as the catalog reports that inside a successful response. */
  lemma MissingCourseListsNoEnrollmentsInsteadOfFailing(t: Table, courseId: string)
    requires forall e :: e in t ==> e.courseId != courseId
    ensures FindEnrollmentsByCourseId(t, courseId, Body(None)) == Success([])
  {
  }
}
