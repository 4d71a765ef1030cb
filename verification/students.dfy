/** The student side of the enrollment service: student records, the student
    repository's lookups and filters, and the student service's guarded
    create, update and delete. */
module Students {
  import opened Prelude
  import opened JavaInt
  import opened Strings
  import opened Seqs
  import opened Paging
  import EnrollmentStore

  /** A stored student. `studentId` is the student number, unique and never
      changed; `email` is unique; `createdAt` is stamped once on insert. */
  datatype Student = Student(
    id: string,
    studentId: string,
    name: string,
    major: string,
    grade: Int32,
    email: string,
    createdAt: Instant)

  /** A student as a request body carries it; id and creation time are
      assigned by the server. */
  datatype StudentBody = StudentBody(
    studentId: string,
    name: string,
    major: string,
    grade: Int32,
    email: string)

  /** Every exception the student service raises, one per throw site. */
  datatype StudentError =
    | StudentIdExists   // "Student ID (studentId) already exists"
    | EmailExists       // "Student email already exists"
    | StudentNotFound   // "Student not found with id"
    | StudentIdChanged  // "Student ID (studentId) cannot be modified"
    | HasEnrollments    // "Cannot delete student: Student has existing enrollments"
    | BadPageRequest    // PageRequest.of rejects a negative index or a size below one
    | PageOffsetTooLarge // the repository refuses a page offset beyond Integer.MAX_VALUE
  {
    /** The exception's class: an `IllegalArgumentException` is a `Conflict`,
        any other `RuntimeException` is `NotFound`. */
    function Kind(): ErrorKind {
      match this
      case StudentNotFound | PageOffsetTooLarge => NotFound
      case _ => Conflict
    }
  }

  type StudentTable = seq<Student>

  /** The bean constraints on a body: four non-blank strings (grade cannot be
      null in this model). The `@Email` format check is not modelled. */
  predicate ValidBody(b: StudentBody) {
    NonBlank(b.studentId) && NonBlank(b.name) && NonBlank(b.major) && NonBlank(b.email)
  }

  predicate WellFormed(s: Student) {
    NonBlank(s.studentId) && NonBlank(s.name) && NonBlank(s.major) && NonBlank(s.email)
  }

  predicate UniqueIds(t: StudentTable) {
    forall i, j :: 0 <= i < |t| && 0 <= j < |t| && i != j ==> t[i].id != t[j].id
  }

  predicate UniqueStudentIds(t: StudentTable) {
    forall i, j :: 0 <= i < |t| && 0 <= j < |t| && i != j ==> t[i].studentId != t[j].studentId
  }

  predicate UniqueEmails(t: StudentTable) {
    forall i, j :: 0 <= i < |t| && 0 <= j < |t| && i != j ==> t[i].email != t[j].email
  }

  predicate Invariant(t: StudentTable) {
    && UniqueIds(t) && UniqueStudentIds(t) && UniqueEmails(t)
    && forall i :: 0 <= i < |t| ==> WellFormed(t[i])
  }

  predicate HasId(t: StudentTable, id: string) {
    exists i :: 0 <= i < |t| && t[i].id == id
  }

  predicate StudentIdTaken(t: StudentTable, studentId: string) {
    exists i :: 0 <= i < |t| && t[i].studentId == studentId
  }

  predicate EmailTaken(t: StudentTable, email: string) {
    exists i :: 0 <= i < |t| && t[i].email == email
  }

  function OfMajor(major: string): Student -> bool {
    (s: Student) => s.major == major
  }

  function OfGrade(grade: int): Student -> bool {
    (s: Student) => s.grade == grade
  }

  function OfMajorAndGrade(major: string, grade: int): Student -> bool {
    (s: Student) => s.major == major && s.grade == grade
  }

  function ByStudentId(s: Student): string {
    s.studentId
  }

  // ---------------------------------------------------------------------
  // Student repository
  // ---------------------------------------------------------------------

  function FindById(t: StudentTable, id: string): (r: Option<Student>)
    ensures r.Some? <==> HasId(t, id)
    ensures r.Some? ==> r.value in t && r.value.id == id
  {
    match IndexWhere(t, (s: Student) => s.id == id)
    case None => None
    case Some(i) => Some(t[i])
  }

  function FindByStudentId(t: StudentTable, studentId: string): (r: Option<Student>)
    ensures r.Some? <==> StudentIdTaken(t, studentId)
    ensures r.Some? ==> r.value in t && r.value.studentId == studentId
  {
    match IndexWhere(t, (s: Student) => s.studentId == studentId)
    case None => None
    case Some(i) => Some(t[i])
  }

  function FindByEmail(t: StudentTable, email: string): (r: Option<Student>)
    ensures r.Some? <==> EmailTaken(t, email)
    ensures r.Some? ==> r.value in t && r.value.email == email
  {
    match IndexWhere(t, (s: Student) => s.email == email)
    case None => None
    case Some(i) => Some(t[i])
  }

  function ExistsByStudentId(t: StudentTable, studentId: string): (b: bool)
    ensures b <==> StudentIdTaken(t, studentId)
  {
    Any(t, (s: Student) => s.studentId == studentId)
  }

  function ExistsByEmail(t: StudentTable, email: string): (b: bool)
    ensures b <==> EmailTaken(t, email)
  {
    Any(t, (s: Student) => s.email == email)
  }

  /** The exists-queries agree with the find-queries on the same key. */
  lemma ExistsIffFound(t: StudentTable, studentId: string, email: string)
    ensures ExistsByStudentId(t, studentId) <==> FindByStudentId(t, studentId).Some?
    ensures ExistsByEmail(t, email) <==> FindByEmail(t, email).Some?
  {
  }

  function FindByMajor(t: StudentTable, major: string): (r: seq<Student>)
    ensures forall s :: s in r <==> s in t && s.major == major
  {
    Filter(t, OfMajor(major))
  }

  function FindByGrade(t: StudentTable, grade: int): (r: seq<Student>)
    ensures forall s :: s in r <==> s in t && s.grade == grade
  {
    Filter(t, OfGrade(grade))
  }

  function FindByMajorAndGrade(t: StudentTable, major: string, grade: int): (r: seq<Student>)
    ensures forall s :: s in r <==> s in t && s.major == major && s.grade == grade
  {
    Filter(t, OfMajorAndGrade(major, grade))
  }

  /** The combined query is the major query narrowed by grade: the intersection
      of the two filters, in store order. */
  lemma MajorAndGradeIsIntersection(t: StudentTable, major: string, grade: int)
    ensures FindByMajorAndGrade(t, major, grade) == Filter(FindByMajor(t, major), OfGrade(grade))
    ensures forall s :: s in FindByMajorAndGrade(t, major, grade) <==>
                          s in FindByMajor(t, major) && s in FindByGrade(t, grade)
  {
    FilterOfFilter(t, OfMajor(major), OfGrade(grade), OfMajorAndGrade(major, grade));
  }

  // ---------------------------------------------------------------------
  // Student service
  // ---------------------------------------------------------------------

  datatype Saved = Saved(table: StudentTable, student: Student)

  /** `createStudent`: rejects a taken student number, then a taken email;
      the insert stamps `createdAt`. */
  function CreateStudent(t: StudentTable, body: StudentBody, freshId: string, now: Instant): (r: Result<Saved, StudentError>)
    requires !HasId(t, freshId)
    ensures StudentIdTaken(t, body.studentId) ==> r == Failure(StudentIdExists)
    ensures r == Failure(EmailExists) <==> !StudentIdTaken(t, body.studentId) && EmailTaken(t, body.email)
    ensures r.Success? <==> !StudentIdTaken(t, body.studentId) && !EmailTaken(t, body.email)
    ensures r.Success? ==>
              r.value.table == t + [r.value.student]
              && r.value.student == Student(freshId, body.studentId, body.name, body.major,
                                            body.grade, body.email, now)
  {
    if ExistsByStudentId(t, body.studentId) then Failure(StudentIdExists)
    else if ExistsByEmail(t, body.email) then Failure(EmailExists)
    else
      var s := Student(freshId, body.studentId, body.name, body.major, body.grade, body.email, now);
      Success(Saved(t + [s], s))
  }

  /** `updateStudent(id, body)`: rejects an unknown id, then a changed student
      number, then a changed email that some student already has. Keeping
      one's own email always passes. Copies name, major, grade and email. */
  function UpdateStudent(t: StudentTable, id: string, body: StudentBody): (r: Result<Saved, StudentError>)
    ensures r == Failure(StudentNotFound) <==> !HasId(t, id)
    ensures HasId(t, id) && body.studentId != FindById(t, id).value.studentId ==> r == Failure(StudentIdChanged)
    ensures HasId(t, id) && body.studentId == FindById(t, id).value.studentId ==>
              (r == Failure(EmailExists) <==> body.email != FindById(t, id).value.email && EmailTaken(t, body.email))
    ensures r.Success? ==>
              exists i :: 0 <= i < |t| && t[i].id == id && r.value.table == t[i := r.value.student]
                && r.value.student == t[i].(name := body.name, major := body.major,
                                           grade := body.grade, email := body.email)
    ensures r.Success? <==>
              HasId(t, id) && body.studentId == FindById(t, id).value.studentId
              && (body.email == FindById(t, id).value.email || !EmailTaken(t, body.email))
  {
    match IndexWhere(t, (s: Student) => s.id == id)
    case None => Failure(StudentNotFound)
    case Some(i) =>
      var existing := t[i];
      if existing.studentId != body.studentId then Failure(StudentIdChanged)
      else if existing.email != body.email && ExistsByEmail(t, body.email) then Failure(EmailExists)
      else
        var updated := existing.(name := body.name, major := body.major, grade := body.grade, email := body.email);
        Success(Saved(t[i := updated], updated))
  }

  /** `deleteStudent(id)`: rejects an unknown id, then a student whose number
      any enrollment references, whatever that enrollment's status. */
  function DeleteStudent(t: StudentTable, enrollments: EnrollmentStore.Table, id: string): (r: Result<StudentTable, StudentError>)
    ensures r == Failure(StudentNotFound) <==> !HasId(t, id)
    ensures r == Failure(HasEnrollments) <==>
              HasId(t, id) && EnrollmentStore.StudentReferenced(enrollments, FindById(t, id).value.studentId)
    ensures r.Success? <==>
              HasId(t, id) && !EnrollmentStore.StudentReferenced(enrollments, FindById(t, id).value.studentId)
    ensures r.Success? ==> exists i :: 0 <= i < |t| && t[i].id == id && r.value == RemoveAt(t, i)
  {
    match IndexWhere(t, (s: Student) => s.id == id)
    case None => Failure(StudentNotFound)
    case Some(i) =>
      if EnrollmentStore.ExistsByStudentId(enrollments, t[i].studentId) then Failure(HasEnrollments)
      else Success(RemoveAt(t, i))
  }

  /** `findAllStudents`: every student, ordered by student number. */
  function FindAllStudents(t: StudentTable): (r: seq<Student>)
    ensures multiset(r) == multiset(t)
    ensures forall i, j :: 0 <= i < j < |r| ==> LessEq(r[i].studentId, r[j].studentId)
  {
    SortBy(t, ByStudentId)
  }

  /** The matching students ordered by student number, the sequence the
      paged filters cut into pages. */
  function Matching(t: StudentTable, keep: Student -> bool): (r: seq<Student>)
    ensures multiset(r) == multiset(Filter(t, keep))
    ensures forall s :: s in r ==> s in t && keep(s)
    ensures forall i, j :: 0 <= i < j < |r| ==> LessEq(r[i].studentId, r[j].studentId)
  {
    var sorted := SortBy(Filter(t, keep), ByStudentId);
    assert forall s :: s in sorted ==> s in multiset(Filter(t, keep));
    sorted
  }

  /** The page index the paged filters ask for: `pageNum - 1`, which wraps
      around at `Integer.MIN_VALUE` (see `PageIndexIsIntDecrement`). */
  function PageIndex(pageNum: Int32): Int32 {
    if pageNum == -0x8000_0000 then 0x7fff_ffff else pageNum - 1
  }

  /** `PageIndex` is `pageNum - 1` in Java `int` arithmetic. */
  lemma PageIndexIsIntDecrement(pageNum: Int32)
    ensures PageIndex(pageNum) == Wrap(pageNum - 1)
  {
    DecrementWrapsOnlyAtMin(pageNum);
  }

  /** The paged filters: `PageRequest.of(pageNum - 1, pageSize)` with no
      clamping, then the page of the matching students ordered by number. */
  function FilteredPage(t: StudentTable, keep: Student -> bool, pageNum: Int32, pageSize: Int32): (r: Result<seq<Student>, StudentError>)
    ensures r == Failure(BadPageRequest) <==> pageSize < 1 || (pageNum < 1 && pageNum != -0x8000_0000)
    ensures r == Failure(PageOffsetTooLarge) <==>
              pageSize >= 1 && PageIndex(pageNum) >= 0 && PageIndex(pageNum) * pageSize > 0x7fff_ffff
    ensures r.Failure? ==> r.error == BadPageRequest || r.error == PageOffsetTooLarge
    ensures r.Success? ==> |r.value| <= pageSize
    ensures r.Success? ==> forall s :: s in r.value ==> s in t && keep(s)
    ensures r.Success? ==> forall i, j :: 0 <= i < j < |r.value| ==> LessEq(r.value[i].studentId, r.value[j].studentId)
    ensures r.Success? ==>
              var matching, start := Matching(t, keep), PageIndex(pageNum) * pageSize;
              && (forall k :: 0 <= k < |r.value| ==> 0 <= start + k < |matching| && r.value[k] == matching[start + k])
              && (0 <= start < |matching| ==> |r.value| == if |matching| - start < pageSize then |matching| - start else pageSize)
              && (start >= |matching| ==> r.value == [])
  {
    match PageRequestOf(PageIndex(pageNum), pageSize)
    case None => Failure(BadPageRequest)
    case Some(spec) =>
      if !OffsetFits(spec) then Failure(PageOffsetTooLarge)
      else Success(PageOfMatches(t, keep, spec))
  }

  /** One page of the matching students, for a page request already accepted. */
  function PageOfMatches(t: StudentTable, keep: Student -> bool, spec: PageSpec): (r: seq<Student>)
    requires spec.size > 0
    ensures r == Page(Matching(t, keep), spec.index, spec.size)
    ensures forall s :: s in r ==> s in t && keep(s)
    ensures forall i, j :: 0 <= i < j < |r| ==> LessEq(r[i].studentId, r[j].studentId)
  {
    var matching := Matching(t, keep);
    PageOfSorted(matching, spec.index, spec.size, ByStudentId);
    Page(matching, spec.index, spec.size)
  }

  /** `findStudentsByMajor`: page `pageNum` (counted from 1) of that major's
      students in student-number order. */
  function FindStudentsByMajor(t: StudentTable, major: string, pageNum: Int32, pageSize: Int32): (r: Result<seq<Student>, StudentError>)
    ensures r.Failure? <==>
              pageSize < 1 || (pageNum < 1 && pageNum != -0x8000_0000) || PageIndex(pageNum) * pageSize > 0x7fff_ffff
    ensures r.Success? ==> forall s :: s in r.value ==> s in t && s.major == major
    ensures r.Success? ==>
              pageSize >= 1 && PageIndex(pageNum) >= 0
              && r.value == Page(Matching(t, OfMajor(major)), PageIndex(pageNum), pageSize)
  {
    FilteredPage(t, OfMajor(major), pageNum, pageSize)
  }

  /** `findStudentsByGrade`: page `pageNum` (counted from 1) of that grade's
      students in student-number order. */
  function FindStudentsByGrade(t: StudentTable, grade: Int32, pageNum: Int32, pageSize: Int32): (r: Result<seq<Student>, StudentError>)
    ensures r.Failure? <==>
              pageSize < 1 || (pageNum < 1 && pageNum != -0x8000_0000) || PageIndex(pageNum) * pageSize > 0x7fff_ffff
    ensures r.Success? ==> forall s :: s in r.value ==> s in t && s.grade == grade
    ensures r.Success? ==>
              pageSize >= 1 && PageIndex(pageNum) >= 0
              && r.value == Page(Matching(t, OfGrade(grade)), PageIndex(pageNum), pageSize)
  {
    FilteredPage(t, OfGrade(grade), pageNum, pageSize)
  }

  /** The paged filters lose no student: every matching student is on the page
      that its position in student-number order gives, as long as an `int`
      page number can reach that page. */
  lemma {:induction false} EveryMatchingStudentIsListed(t: StudentTable, keep: Student -> bool, s: Student, pageSize: Int32)
    requires s in t && keep(s) && pageSize >= 1 && |t| <= 0x7fff_ffff
    ensures exists pageNum: Int32 :: pageNum >= 1 && FilteredPage(t, keep, pageNum, pageSize).Success?
                                     && s in FilteredPage(t, keep, pageNum, pageSize).value
  {
    var matching := Matching(t, keep);
    var i := PositionInMatching(t, keep, s);
    var q := i / pageSize;
    PageOfPosition(i, pageSize, |t|);
    var pageNum: Int32 := q + 1;
    EveryRecordOnItsPage(matching, pageSize, i);
    assert FilteredPage(t, keep, pageNum, pageSize) == Success(PageOfMatches(t, keep, PageSpec(q, pageSize)));
  }

  /** A matching student has a position in the ordered matches. */
  lemma PositionInMatching(t: StudentTable, keep: Student -> bool, s: Student) returns (i: nat)
    requires s in t && keep(s)
    ensures i < |Matching(t, keep)| <= |t| && Matching(t, keep)[i] == s
  {
    var matching := Matching(t, keep);
    assert |matching| <= |t| by {
      assert |multiset(matching)| == |multiset(Filter(t, keep))|;
    }
    assert s in Filter(t, keep);
    assert s in multiset(matching);
    i :| 0 <= i < |matching| && matching[i] == s;
  }

  /** Every student of a major is listed on some page of that major. */
  lemma EveryStudentOfMajorIsListed(t: StudentTable, s: Student, pageSize: Int32)
    requires s in t && pageSize >= 1 && |t| <= 0x7fff_ffff
    ensures exists pageNum: Int32 :: pageNum >= 1 && FindStudentsByMajor(t, s.major, pageNum, pageSize).Success?
                                     && s in FindStudentsByMajor(t, s.major, pageNum, pageSize).value
  {
    EveryMatchingStudentIsListed(t, OfMajor(s.major), s, pageSize);
    var pageNum: Int32 :| pageNum >= 1 && FilteredPage(t, OfMajor(s.major), pageNum, pageSize).Success?
                          && s in FilteredPage(t, OfMajor(s.major), pageNum, pageSize).value;
    assert FindStudentsByMajor(t, s.major, pageNum, pageSize) == FilteredPage(t, OfMajor(s.major), pageNum, pageSize);
  }

  /** Every student of a grade is listed on some page of that grade. */
  lemma EveryStudentOfGradeIsListed(t: StudentTable, s: Student, pageSize: Int32)
    requires s in t && pageSize >= 1 && |t| <= 0x7fff_ffff
    ensures exists pageNum: Int32 :: pageNum >= 1 && FindStudentsByGrade(t, s.grade, pageNum, pageSize).Success?
                                     && s in FindStudentsByGrade(t, s.grade, pageNum, pageSize).value
  {
    EveryMatchingStudentIsListed(t, OfGrade(s.grade), s, pageSize);
    var pageNum: Int32 :| pageNum >= 1 && FilteredPage(t, OfGrade(s.grade), pageNum, pageSize).Success?
                          && s in FilteredPage(t, OfGrade(s.grade), pageNum, pageSize).value;
    assert FindStudentsByGrade(t, s.grade, pageNum, pageSize) == FilteredPage(t, OfGrade(s.grade), pageNum, pageSize);
  }

  // ---------------------------------------------------------------------
  // Invariant preservation
  // ---------------------------------------------------------------------

  /** Create keeps student numbers and emails unique across the table. */
  lemma CreatePreservesInvariant(t: StudentTable, body: StudentBody, freshId: string, now: Instant)
    requires Invariant(t) && ValidBody(body) && !HasId(t, freshId)
    ensures CreateStudent(t, body, freshId, now).Success? ==> Invariant(CreateStudent(t, body, freshId, now).value.table)
  {
  }

  /** Update keeps student numbers and emails unique across the table. */
  lemma UpdatePreservesInvariant(t: StudentTable, id: string, body: StudentBody)
    requires Invariant(t) && ValidBody(body)
    ensures UpdateStudent(t, id, body).Success? ==> Invariant(UpdateStudent(t, id, body).value.table)
  {
    var r := UpdateStudent(t, id, body);
    if r.Success? {
      var i :| 0 <= i < |t| && t[i].id == id && r.value.table == t[i := r.value.student]
                && r.value.student == t[i].(name := body.name, major := body.major,
                                           grade := body.grade, email := body.email);
      var prev := FindById(t, id).value;
      var k :| 0 <= k < |t| && t[k] == prev;
      assert k == i;
      var u := r.value.table;
      forall a, b | 0 <= a < |u| && 0 <= b < |u| && a != b
        ensures u[a].email != u[b].email
      {
        if a == i && body.email != t[i].email {
          assert !EmailTaken(t, body.email);
          assert t[b].email == u[b].email;
        } else if b == i && body.email != t[i].email {
          assert !EmailTaken(t, body.email);
          assert t[a].email == u[a].email;
        }
      }
    }
  }

  lemma DeletePreservesInvariant(t: StudentTable, enrollments: EnrollmentStore.Table, id: string)
    requires Invariant(t)
    ensures DeleteStudent(t, enrollments, id).Success? ==> Invariant(DeleteStudent(t, enrollments, id).value)
  {
    if DeleteStudent(t, enrollments, id).Success? {
      var i :| 0 <= i < |t| && t[i].id == id && DeleteStudent(t, enrollments, id).value == RemoveAt(t, i);
      RemoveAtPreservesInvariant(t, i);
    }
  }

  lemma RemoveAtPreservesInvariant(t: StudentTable, i: nat)
    requires Invariant(t) && i < |t|
    ensures Invariant(RemoveAt(t, i))
  {
    var u := RemoveAt(t, i);
    forall a, b | 0 <= a < |u| && 0 <= b < |u| && a != b
      ensures u[a].id != u[b].id && u[a].studentId != u[b].studentId && u[a].email != u[b].email
    {
      var a', b' := if a < i then a else a + 1, if b < i then b else b + 1;
      assert u[a] == t[a'] && u[b] == t[b'];
    }
    forall a | 0 <= a < |u|
      ensures WellFormed(u[a])
    {
      assert u[a] == t[if a < i then a else a + 1];
    }
  }

  /** A successful delete leaves no enrollment pointing at a removed student
      number: the guard saw none, and delete does not touch enrollments. */
  lemma DeletedStudentHasNoEnrollments(t: StudentTable, enrollments: EnrollmentStore.Table, id: string)
    requires DeleteStudent(t, enrollments, id).Success?
    ensures !EnrollmentStore.StudentReferenced(enrollments, FindById(t, id).value.studentId)
  {
  }

  /** Unlike course pages, page number 0 is not clamped: it is rejected. */
  lemma PageNumberZeroIsRejected(t: StudentTable, major: string, pageSize: Int32)
    ensures FindStudentsByMajor(t, major, 0, pageSize) == Failure(BadPageRequest)
  {
  }
}
