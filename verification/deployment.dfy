/** The two services deployed together: the enrollment service's calls to the
    catalog, resolved against a catalog store. The catalog is either reachable
    for both the read and the write of one request or for neither. */
module Deployment {
  import opened Prelude
  import opened Seqs
  import Catalog
  import Schedule
  import Students
  import opened EnrollmentStore
  import opened Enrollments

  datatype System = System(catalog: Catalog.CourseStore, students: Students.StudentTable, enrollments: Table)

  /** What `GET /api/courses/{id}` answers: HTTP 200 in both cases, with the
      course as `data`, or with null `data` and code 404 inside the body. */
  function CourseReplyFrom(catalog: Catalog.CourseStore, courseId: string): (reply: CourseReply)
    ensures reply.Body?
    ensures reply.data.Some? <==> Catalog.HasId(catalog, courseId)
    ensures reply.data.Some? ==>
              exists i :: 0 <= i < |catalog| && catalog[i].id == courseId
                && reply.data.value == Seats(catalog[i].capacity, catalog[i].enrolled)
  {
    match Catalog.FindById(catalog, courseId)
    case None => Body(None)
    case Some(c) => Body(Some(Seats(c.capacity, c.enrolled)))
  }

  function Fetch(catalog: Catalog.CourseStore, courseId: string, catalogUp: bool): CourseReply {
    if catalogUp then CourseReplyFrom(catalog, courseId) else Unreachable
  }

  /** The body `{"enrolled": n}`: every other field is null; `nulls` stands for
      whatever those nulls bind to. */
  function SeatBody(u: SeatUpdate, nulls: Catalog.CourseBody): Catalog.CourseBody {
    nulls.(code := None, enrolled := Some(u.enrolled))
  }

  /** The catalog after the enrollment service's `PUT /api/courses/{id}`, as
      written: the body has no code, so the update is refused at the
      code check and the catalog never changes, whatever count was sent. */
  function ApplySeatUpdate(catalog: Catalog.CourseStore, u: SeatUpdate, nulls: Catalog.CourseBody, catalogUp: bool): (r: Catalog.CourseStore)
    ensures r == catalog
  {
    if !catalogUp then catalog
    else
      var result := Catalog.UpdateCourse(catalog, u.courseId, SeatBody(u, nulls));
      Catalog.BodyWithoutCodeIsRejected(catalog, u.courseId, SeatBody(u, nulls));
      match result
      case Success(saved) => saved.store
      case Failure(_) => catalog
  }

  /** The seat write the enrollment service means to make: the course's
      `enrolled` becomes the count sent; an unknown course changes nothing. */
  function ApplySeatUpdateFixed(catalog: Catalog.CourseStore, u: SeatUpdate): (r: Catalog.CourseStore)
    ensures |r| == |catalog|
    ensures forall j :: 0 <= j < |r| ==> r[j].id == catalog[j].id && r[j].capacity == catalog[j].capacity
    ensures forall j :: 0 <= j < |r| && catalog[j].id != u.courseId ==> r[j] == catalog[j]
    ensures Catalog.UniqueIds(catalog) ==>
              forall j :: 0 <= j < |r| && catalog[j].id == u.courseId ==> r[j].enrolled == u.enrolled
  {
    match IndexWhere(catalog, (c: Catalog.Course) => c.id == u.courseId)
    case None => catalog
    case Some(i) => catalog[i := catalog[i].(enrolled := u.enrolled)]
  }

  // ---------------------------------------------------------------------
  // Enroll and drop against the catalog, as written
  // ---------------------------------------------------------------------

  /** `POST /api/enrollments` end to end, with the seat write as written. */
  function SystemEnroll(sys: System, req: EnrollRequest, catalogUp: bool, freshId: string, now: Instant,
                        nulls: Catalog.CourseBody): (r: Result<System, EnrollError>)
    requires !HasId(sys.enrollments, freshId)
    ensures !catalogUp ==> r == Failure(CatalogUnavailable)
    ensures catalogUp && !Catalog.HasId(sys.catalog, req.courseId) ==> r == Failure(CourseNotFound)
    ensures r.Success? <==>
              catalogUp && Catalog.HasId(sys.catalog, req.courseId)
              && Students.StudentIdTaken(sys.students, req.studentId)
              && !PairTaken(sys.enrollments, req.courseId, req.studentId)
              && Catalog.FindById(sys.catalog, req.courseId).value.enrolled
                   < Catalog.FindById(sys.catalog, req.courseId).value.capacity
    ensures r.Success? ==>
              && r.value.catalog == sys.catalog
              && r.value.students == sys.students
              && r.value.enrollments == sys.enrollments + [Enrollment(freshId, req.courseId, req.studentId, Active, now)]
  {
    var reply := Fetch(sys.catalog, req.courseId, catalogUp);
    match EnrollCourse(sys.enrollments, sys.students, req, reply, freshId, now)
    case Failure(err) => Failure(err)
    case Success(o) =>
      Success(System(ApplySeatUpdate(sys.catalog, o.seatUpdate, nulls, catalogUp), sys.students, o.table))
  }

  /** The reply `dropCourse` reads: the catalog's view of the enrollment's course. */
  function DropReply(sys: System, id: string, catalogUp: bool): CourseReply {
    match FindById(sys.enrollments, id)
    case None => Unreachable
    case Some(e) => Fetch(sys.catalog, e.courseId, catalogUp)
  }

  /** `DELETE /api/enrollments/{id}` end to end, with the seat write as written. */
  function SystemDrop(sys: System, id: string, catalogUp: bool, nulls: Catalog.CourseBody): (r: Result<System, EnrollError>)
    ensures r.Failure? <==> !HasId(sys.enrollments, id) || FindById(sys.enrollments, id).value.status == Dropped
    ensures r.Success? ==>
              && r.value.catalog == sys.catalog
              && r.value.students == sys.students
              && exists i :: 0 <= i < |sys.enrollments| && sys.enrollments[i].id == id
                   && r.value.enrollments == sys.enrollments[i := sys.enrollments[i].(status := Dropped)]
  {
    match DropCourse(sys.enrollments, id, DropReply(sys, id, catalogUp))
    case Failure(err) => Failure(err)
    case Success(o) =>
      var catalog := match o.seatUpdate
        case None => sys.catalog
        case Some(u) => ApplySeatUpdate(sys.catalog, u, nulls, catalogUp);
      Success(System(catalog, sys.students, o.table))
  }

  /** With the catalog up, listing a course's enrollments never reports the
      course missing: the catalog says so inside a successful response. */
  lemma CourseListingNeverNotFoundWhenUp(sys: System, courseId: string)
    ensures FindEnrollmentsByCourseId(sys.enrollments, courseId, Fetch(sys.catalog, courseId, true)).Success?
    ensures !Catalog.HasId(sys.catalog, courseId) ==>
              FindEnrollmentsByCourseId(sys.enrollments, courseId, Fetch(sys.catalog, courseId, true))
                == Success(FindByCourseId(sys.enrollments, courseId))
  {
  }

  // ---------------------------------------------------------------------
  // The same two operations with the seat write the services intend
  // ---------------------------------------------------------------------

  function SystemEnrollFixed(sys: System, req: EnrollRequest, catalogUp: bool, freshId: string, now: Instant): (r: Result<System, EnrollError>)
    requires !HasId(sys.enrollments, freshId)
    ensures r.Success? <==>
              catalogUp && Catalog.HasId(sys.catalog, req.courseId)
              && Students.StudentIdTaken(sys.students, req.studentId)
              && !PairTaken(sys.enrollments, req.courseId, req.studentId)
              && Catalog.FindById(sys.catalog, req.courseId).value.enrolled
                   < Catalog.FindById(sys.catalog, req.courseId).value.capacity
    ensures r.Success? ==>
              && r.value.students == sys.students
              && r.value.enrollments == sys.enrollments + [Enrollment(freshId, req.courseId, req.studentId, Active, now)]
  {
    var reply := Fetch(sys.catalog, req.courseId, catalogUp);
    match EnrollCourse(sys.enrollments, sys.students, req, reply, freshId, now)
    case Failure(err) => Failure(err)
    case Success(o) =>
      Success(System(ApplySeatUpdateFixed(sys.catalog, o.seatUpdate), sys.students, o.table))
  }

  function SystemDropFixed(sys: System, id: string, catalogUp: bool): (r: Result<System, EnrollError>)
    ensures r.Failure? <==> !HasId(sys.enrollments, id) || FindById(sys.enrollments, id).value.status == Dropped
    ensures r.Success? ==>
              && r.value.students == sys.students
              && exists i :: 0 <= i < |sys.enrollments| && sys.enrollments[i].id == id
                   && r.value.enrollments == sys.enrollments[i := sys.enrollments[i].(status := Dropped)]
  {
    match DropCourse(sys.enrollments, id, DropReply(sys, id, catalogUp))
    case Failure(err) => Failure(err)
    case Success(o) =>
      var catalog := match o.seatUpdate
        case None => sys.catalog
        case Some(u) => ApplySeatUpdateFixed(sys.catalog, u);
      Success(System(catalog, sys.students, o.table))
  }

  /** The enrollments of a course that still hold a seat. */
  function Holding(courseId: string): Enrollment -> bool {
    (e: Enrollment) => e.courseId == courseId && e.status != Dropped
  }

  /** Every catalog course's counter covers the seats held, and stays within
      capacity. */
  predicate SeatsAccounted(sys: System) {
    && Catalog.UniqueIds(sys.catalog)
    && forall j :: 0 <= j < |sys.catalog| ==>
         Count(sys.enrollments, Holding(sys.catalog[j].id)) <= sys.catalog[j].enrolled <= sys.catalog[j].capacity
  }

  lemma FixedEnrollKeepsSeatsAccounted(sys: System, req: EnrollRequest, catalogUp: bool, freshId: string, now: Instant)
    requires SeatsAccounted(sys) && !HasId(sys.enrollments, freshId)
    ensures SystemEnrollFixed(sys, req, catalogUp, freshId, now).Success? ==>
              SeatsAccounted(SystemEnrollFixed(sys, req, catalogUp, freshId, now).value)
  {
    var r := SystemEnrollFixed(sys, req, catalogUp, freshId, now);
    if r.Success? {
      var cat := sys.catalog;
      var t := sys.enrollments;
      var reply := Fetch(cat, req.courseId, catalogUp);
      var o := EnrollCourse(t, sys.students, req, reply, freshId, now).value;
      var k :| 0 <= k < |cat| && cat[k].id == req.courseId
                 && reply.data.value == Seats(cat[k].capacity, cat[k].enrolled);
      var u := r.value.catalog;
      assert u == ApplySeatUpdateFixed(cat, o.seatUpdate);
      forall j | 0 <= j < |u|
        ensures Count(r.value.enrollments, Holding(u[j].id)) <= u[j].enrolled <= u[j].capacity
      {
        CountAppend(t, o.enrollment, Holding(cat[j].id));
        if cat[j].id == req.courseId {
          assert j == k;
        }
      }
    }
  }

  lemma FixedDropKeepsSeatsAccounted(sys: System, id: string, catalogUp: bool)
    requires SeatsAccounted(sys)
    ensures SystemDropFixed(sys, id, catalogUp).Success? ==> SeatsAccounted(SystemDropFixed(sys, id, catalogUp).value)
  {
    var r := SystemDropFixed(sys, id, catalogUp);
    if r.Success? {
      var cat := sys.catalog;
      var t := sys.enrollments;
      var reply := DropReply(sys, id, catalogUp);
      var d := DropCourse(t, id, reply).value;
      var i :| 0 <= i < |t| && t[i].id == id && t[i].status != Dropped
                 && d.table == t[i := t[i].(status := Dropped)]
                 && d.seatUpdate ==
                      (if reply.Body? && reply.data.Some?
                       then Some(SeatUpdate(t[i].courseId, SeatsAfterDrop(reply.data.value.enrolled)))
                       else None);
      if d.seatUpdate.None? {
        assert r.value == System(cat, sys.students, d.table);
        DropReleasesSeat(sys, i);
      } else {
        var found := FindById(t, id).value;
        var m :| 0 <= m < |t| && t[m] == found;
        assert reply == CourseReplyFrom(cat, t[m].courseId);
        var k :| 0 <= k < |cat| && cat[k].id == t[m].courseId
                   && reply.data.value == Seats(cat[k].capacity, cat[k].enrolled);
        assert t[m].courseId == t[i].courseId;
        DropReleasesSeatAndCounter(sys, i, k);
      }
    }
  }

  /** Dropping a held seat while the counter stays keeps the accounting. */
  lemma DropReleasesSeat(sys: System, i: nat)
    requires SeatsAccounted(sys) && i < |sys.enrollments| && sys.enrollments[i].status != Dropped
    ensures SeatsAccounted(sys.(enrollments := sys.enrollments[i := sys.enrollments[i].(status := Dropped)]))
  {
    var t := sys.enrollments;
    forall j | 0 <= j < |sys.catalog|
      ensures Count(t[i := t[i].(status := Dropped)], Holding(sys.catalog[j].id)) <= Count(t, Holding(sys.catalog[j].id))
    {
      CountUpdate(t, i, t[i].(status := Dropped), Holding(sys.catalog[j].id));
    }
  }

  /** Dropping a held seat and writing the decremented counter of its course
      keeps the accounting. */
  lemma DropReleasesSeatAndCounter(sys: System, i: nat, k: nat)
    requires SeatsAccounted(sys) && i < |sys.enrollments| && sys.enrollments[i].status != Dropped
    requires k < |sys.catalog| && sys.catalog[k].id == sys.enrollments[i].courseId
    ensures var t := sys.enrollments;
            var u := SeatUpdate(t[i].courseId, SeatsAfterDrop(sys.catalog[k].enrolled));
            SeatsAccounted(System(ApplySeatUpdateFixed(sys.catalog, u), sys.students, t[i := t[i].(status := Dropped)]))
  {
    var t := sys.enrollments;
    var cat := sys.catalog;
    var u := SeatUpdate(t[i].courseId, SeatsAfterDrop(cat[k].enrolled));
    var t' := t[i := t[i].(status := Dropped)];
    var cat' := ApplySeatUpdateFixed(cat, u);
    forall j | 0 <= j < |cat'|
      ensures Count(t', Holding(cat'[j].id)) <= cat'[j].enrolled <= cat'[j].capacity
    {
      CountUpdate(t, i, t[i].(status := Dropped), Holding(cat[j].id));
      if cat[j].id == t[i].courseId {
        assert j == k;
      }
    }
  }

  /** With the intended seat write, a course whose held seats have reached its
      capacity refuses the next student with the capacity error. */
  lemma FixedRefusesFullCourse(sys: System, req: EnrollRequest, freshId: string, now: Instant, j: nat)
    requires SeatsAccounted(sys) && !HasId(sys.enrollments, freshId)
    requires j < |sys.catalog| && sys.catalog[j].id == req.courseId
    requires Count(sys.enrollments, Holding(req.courseId)) >= sys.catalog[j].capacity
    ensures SystemEnrollFixed(sys, req, true, freshId, now).Failure?
    ensures Students.StudentIdTaken(sys.students, req.studentId) && !PairTaken(sys.enrollments, req.courseId, req.studentId) ==>
              SystemEnrollFixed(sys, req, true, freshId, now) == Failure(CapacityExceeded)
  {
    var c := Catalog.FindById(sys.catalog, req.courseId).value;
    var k :| 0 <= k < |sys.catalog| && sys.catalog[k] == c;
    assert k == j;
  }

  // ---------------------------------------------------------------------
  // A two-student run against a one-seat course
  // ---------------------------------------------------------------------

  function DemoCourse(): Catalog.Course {
    Catalog.Course("c1", "CS101", "Intro", Catalog.Instructor("i1", "Ada", "ada@example.edu"),
                   Schedule.ScheduleSlot("MONDAY", "09:00", "10:00", 30), 1, 0, Instant(0))
  }

  function DemoStudent(number: string, email: string): Students.Student {
    Students.Student(number, number, "Name", "CS", 1, email, Instant(0))
  }

  function DemoSystem(): System {
    System([DemoCourse()], [DemoStudent("S1", "s1@example.edu"), DemoStudent("S2", "s2@example.edu")], [])
  }

  /** As written, two students both enroll in a one-seat course: the catalog's
      counter stays at 0, so the capacity check passes twice and two seats are
      held against a capacity of one. */
  lemma OverbookingAsWritten(nulls: Catalog.CourseBody)
    ensures var s1 := SystemEnroll(DemoSystem(), EnrollRequest("c1", "S1"), true, "e1", Instant(1), nulls);
            && s1.Success?
            && !HasId(s1.value.enrollments, "e2")
            && var s2 := SystemEnroll(s1.value, EnrollRequest("c1", "S2"), true, "e2", Instant(2), nulls);
            && s2.Success?
            && Count(s2.value.enrollments, Holding("c1")) == 2
            && s2.value.catalog[0].capacity == 1
  {
    var s0 := DemoSystem();
    assert Students.StudentIdTaken(s0.students, "S1") by { assert s0.students[0].studentId == "S1"; }
    assert Students.StudentIdTaken(s0.students, "S2") by { assert s0.students[1].studentId == "S2"; }
    assert Catalog.HasId(s0.catalog, "c1") by { assert s0.catalog[0].id == "c1"; }
    var s1 := SystemEnroll(s0, EnrollRequest("c1", "S1"), true, "e1", Instant(1), nulls);
    assert s1.Success?;
    var t1 := s1.value.enrollments;
    assert t1 == [Enrollment("e1", "c1", "S1", Active, Instant(1))];
    assert !HasId(t1, "e2");
    assert !PairTaken(t1, "c1", "S2");
    var s2 := SystemEnroll(s1.value, EnrollRequest("c1", "S2"), true, "e2", Instant(2), nulls);
    assert s2.Success?;
    var t2 := s2.value.enrollments;
    assert t2 == t1 + [Enrollment("e2", "c1", "S2", Active, Instant(2))];
    CountAppend([], t1[0], Holding("c1"));
    CountAppend(t1, t2[1], Holding("c1"));
  }

  /** With the intended seat write, the same run refuses the second student:
      the first enrollment moved the counter to the capacity. */
  lemma NoOverbookingFixed()
    ensures var s1 := SystemEnrollFixed(DemoSystem(), EnrollRequest("c1", "S1"), true, "e1", Instant(1));
            && s1.Success?
            && s1.value.catalog[0].enrolled == 1
            && !HasId(s1.value.enrollments, "e2")
            && SystemEnrollFixed(s1.value, EnrollRequest("c1", "S2"), true, "e2", Instant(2))
                 == Failure(CapacityExceeded)
  {
    var s0 := DemoSystem();
    assert Students.StudentIdTaken(s0.students, "S1") by { assert s0.students[0].studentId == "S1"; }
    assert Students.StudentIdTaken(s0.students, "S2") by { assert s0.students[1].studentId == "S2"; }
    assert Catalog.HasId(s0.catalog, "c1") by { assert s0.catalog[0].id == "c1"; }
    assert Catalog.UniqueIds(s0.catalog);
    var s1 := SystemEnrollFixed(s0, EnrollRequest("c1", "S1"), true, "e1", Instant(1));
    assert s1.Success?;
    var t1 := s1.value.enrollments;
    assert t1 == [Enrollment("e1", "c1", "S1", Active, Instant(1))];
    assert !HasId(t1, "e2");
    assert !PairTaken(t1, "c1", "S2");
    assert s1.value.catalog[0].enrolled == 1;
    assert Catalog.HasId(s1.value.catalog, "c1") by { assert s1.value.catalog[0].id == "c1"; }
  }
}
