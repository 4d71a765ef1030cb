/** The enrollment table: the record shape, its status enumeration, the
    pair-uniqueness constraint and the repository's derived queries. */
module EnrollmentStore {
  import opened Prelude
  import opened Strings
  import opened Seqs

  /** Exactly three statuses exist. */
  datatype EnrollmentStatus = Active | Dropped | Completed

  /** `studentId` holds the student number, not the student's record id. */
  datatype Enrollment = Enrollment(
    id: string,
    courseId: string,
    studentId: string,
    status: EnrollmentStatus,
    enrollTime: Instant)

  type Table = seq<Enrollment>

  /** `@NotBlank` on both references. */
  predicate WellFormed(e: Enrollment) {
    NonBlank(e.courseId) && NonBlank(e.studentId)
  }

  predicate UniqueIds(t: Table) {
    forall i, j :: 0 <= i < |t| && 0 <= j < |t| && i != j ==> t[i].id != t[j].id
  }

  /** The unique constraint on (course_id, student_id): at most one record per
      pair, whatever its status. */
  predicate UniquePairs(t: Table) {
    forall i, j :: 0 <= i < |t| && 0 <= j < |t| && i != j ==>
      t[i].courseId != t[j].courseId || t[i].studentId != t[j].studentId
  }

  predicate Invariant(t: Table) {
    UniqueIds(t) && UniquePairs(t) && forall i :: 0 <= i < |t| ==> WellFormed(t[i])
  }

  predicate HasId(t: Table, id: string) {
    exists i :: 0 <= i < |t| && t[i].id == id
  }

  predicate PairTaken(t: Table, courseId: string, studentId: string) {
    exists i :: 0 <= i < |t| && t[i].courseId == courseId && t[i].studentId == studentId
  }

  predicate StudentReferenced(t: Table, studentId: string) {
    exists i :: 0 <= i < |t| && t[i].studentId == studentId
  }

  // The selection predicates of the derived queries, each defined once so
  // that every query built from it filters on the same predicate.

  function OfCourse(courseId: string): Enrollment -> bool {
    (e: Enrollment) => e.courseId == courseId
  }

  function OfStudent(studentId: string): Enrollment -> bool {
    (e: Enrollment) => e.studentId == studentId
  }

  function WithStatus(status: EnrollmentStatus): Enrollment -> bool {
    (e: Enrollment) => e.status == status
  }

  function OfCourseWithStatus(courseId: string, status: EnrollmentStatus): Enrollment -> bool {
    (e: Enrollment) => e.courseId == courseId && e.status == status
  }

  function OfStudentWithStatus(studentId: string, status: EnrollmentStatus): Enrollment -> bool {
    (e: Enrollment) => e.studentId == studentId && e.status == status
  }

  // ---------------------------------------------------------------------
  // Enrollment repository
  // ---------------------------------------------------------------------

  function FindById(t: Table, id: string): (r: Option<Enrollment>)
    ensures r.Some? <==> HasId(t, id)
    ensures r.Some? ==> r.value in t && r.value.id == id
  {
    match IndexWhere(t, (e: Enrollment) => e.id == id)
    case None => None
    case Some(i) => Some(t[i])
  }

  function FindByCourseId(t: Table, courseId: string): (r: seq<Enrollment>)
    ensures forall e :: e in r <==> e in t && e.courseId == courseId
  {
    Filter(t, OfCourse(courseId))
  }

  function FindByStudentId(t: Table, studentId: string): (r: seq<Enrollment>)
    ensures forall e :: e in r <==> e in t && e.studentId == studentId
  {
    Filter(t, OfStudent(studentId))
  }

  function ExistsByCourseIdAndStudentId(t: Table, courseId: string, studentId: string): (b: bool)
    ensures b <==> PairTaken(t, courseId, studentId)
  {
    Any(t, (e: Enrollment) => e.courseId == courseId && e.studentId == studentId)
  }

  function ExistsByStudentId(t: Table, studentId: string): (b: bool)
    ensures b <==> StudentReferenced(t, studentId)
  {
    Any(t, OfStudent(studentId))
  }

  function FindByCourseIdAndStatus(t: Table, courseId: string, status: EnrollmentStatus): (r: seq<Enrollment>)
    ensures forall e :: e in r <==> e in t && e.courseId == courseId && e.status == status
  {
    Filter(t, OfCourseWithStatus(courseId, status))
  }

  function FindByStudentIdAndStatus(t: Table, studentId: string, status: EnrollmentStatus): (r: seq<Enrollment>)
    ensures forall e :: e in r <==> e in t && e.studentId == studentId && e.status == status
  {
    Filter(t, OfStudentWithStatus(studentId, status))
  }

  /** `countByCourseIdAndStatus`: how many records the matching find query returns. */
  function CountByCourseIdAndStatus(t: Table, courseId: string, status: EnrollmentStatus): (n: nat)
    ensures n == |FindByCourseIdAndStatus(t, courseId, status)|
  {
    CountIsFilterLength(t, OfCourseWithStatus(courseId, status));
    Count(t, OfCourseWithStatus(courseId, status))
  }

  /** The JPQL query `e.courseId = :courseId AND e.status = :status`, written
      out record by record. */
  function FindEnrollmentsByCourseIdAndStatus(t: Table, courseId: string, status: EnrollmentStatus): (r: seq<Enrollment>)
    ensures forall e :: e in r <==> e in t && e.courseId == courseId && e.status == status
    decreases |t|
  {
    if |t| == 0 then []
    else
      var rest := FindEnrollmentsByCourseIdAndStatus(t[1..], courseId, status);
      if t[0].courseId == courseId && t[0].status == status then [t[0]] + rest else rest
  }

  /** `deleteById`: removes the record with that id; an unknown id changes nothing. */
  function DeleteById(t: Table, id: string): (r: Table)
    ensures !HasId(t, id) ==> r == t
    ensures HasId(t, id) ==> exists i :: 0 <= i < |t| && t[i].id == id && r == RemoveAt(t, i)
  {
    match IndexWhere(t, (e: Enrollment) => e.id == id)
    case None => t
    case Some(i) => RemoveAt(t, i)
  }

  // ---------------------------------------------------------------------
  // Relations between the queries
  // ---------------------------------------------------------------------

  /** The JPQL query and the derived query return the same records in the same order. */
  lemma {:induction false} JpqlMatchesDerivedQuery(t: Table, courseId: string, status: EnrollmentStatus)
    ensures FindEnrollmentsByCourseIdAndStatus(t, courseId, status) == FindByCourseIdAndStatus(t, courseId, status)
    decreases |t|
  {
    if |t| > 0 {
      JpqlMatchesDerivedQuery(t[1..], courseId, status);
      FilterUnfold(t, OfCourseWithStatus(courseId, status));
    }
  }

  /** `existsByStudentId` holds exactly when `findByStudentId` finds something. */
  lemma ExistsByStudentIdIffFound(t: Table, studentId: string)
    ensures ExistsByStudentId(t, studentId) <==> |FindByStudentId(t, studentId)| > 0
  {
    AnyIffFilterNonEmpty(t, OfStudent(studentId));
  }

  /** The student-and-status query is the student query narrowed by status. */
  lemma StudentStatusQueryNarrowsStudentQuery(t: Table, studentId: string, status: EnrollmentStatus)
    ensures FindByStudentIdAndStatus(t, studentId, status)
              == Filter(FindByStudentId(t, studentId), WithStatus(status))
  {
    FilterOfFilter(t, OfStudent(studentId), WithStatus(status), OfStudentWithStatus(studentId, status));
  }

  /** In a table with unique ids, `deleteById` removes that record only. */
  lemma DeleteByIdRemovesOnlyThatRecord(t: Table, id: string)
    requires UniqueIds(t)
    ensures forall e :: e in DeleteById(t, id) <==> e in t && e.id != id
  {
    var r := DeleteById(t, id);
    if HasId(t, id) {
      var i :| 0 <= i < |t| && t[i].id == id && r == RemoveAt(t, i);
      forall e
        ensures e in r <==> e in t && e.id != id
      {
        RemoveAtMembers(t, i, e);
      }
    }
  }

  /** Appending a record whose pair and id are new keeps the table's invariant. */
  lemma InsertPreservesInvariant(t: Table, e: Enrollment)
    requires Invariant(t) && WellFormed(e)
    requires !HasId(t, e.id) && !PairTaken(t, e.courseId, e.studentId)
    ensures Invariant(t + [e])
  {
  }

  /** Rewriting a record's status keeps the table's invariant. */
  lemma StatusChangePreservesInvariant(t: Table, i: nat, status: EnrollmentStatus)
    requires Invariant(t) && i < |t|
    ensures Invariant(t[i := t[i].(status := status)])
  {
  }
}
