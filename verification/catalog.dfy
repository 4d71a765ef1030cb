/** The catalog service: course records, the course repository's queries and
    the course service's guarded create, update and delete. */
module Catalog {
  import opened Prelude
  import opened JavaInt
  import opened Strings
  import opened Seqs
  import opened Paging
  import opened Schedule

  datatype Instructor = Instructor(id: string, name: string, email: string)

  /** A stored course. `code` is unique and never changes; `enrolled` is the
      denormalised seat counter; `createTime` is stamped once on insert. */
  datatype Course = Course(
    id: string,
    code: string,
    title: string,
    instructor: Instructor,
    schedule: ScheduleSlot,
    capacity: Int32,
    enrolled: Int32,
    createTime: Instant)

  /** A course as a request body carries it. The code may be absent (null),
      `enrolled` may be absent, and id and creation time are assigned by the
      server rather than taken from the body. */
  datatype CourseBody = CourseBody(
    code: Option<string>,
    title: string,
    instructor: Instructor,
    schedule: ScheduleSlot,
    capacity: Int32,
    enrolled: Option<Int32>)

  /** Every exception the course service raises, one per throw site. */
  datatype CourseError =
    | CodeExists           // "Course code already exists"
    | TimeConflict         // "Time conflict detected"
    | CodeMissing          // the insert of a course without a code fails
    | CourseNotFound       // "Course not found with id"
    | CodeChanged          // "Course code cannot be modified"
    | CapacityNotPositive  // "Course capacity must be positive"
    | BadPageRequest       // PageRequest.of rejects a page size below one
    | PageOffsetTooLarge   // the repository refuses a page offset beyond Integer.MAX_VALUE
  {
    /** The exception's class: an `IllegalArgumentException` is a `Conflict`,
        any other `RuntimeException` is `NotFound`. */
    function Kind(): ErrorKind {
      match this
      case CodeMissing | CourseNotFound | PageOffsetTooLarge => NotFound
      case _ => Conflict
    }
  }

  type CourseStore = seq<Course>

  /** The bean constraint checked on a request body: `@Positive` capacity. */
  predicate ValidBody(body: CourseBody) {
    body.capacity > 0
  }

  // ---------------------------------------------------------------------
  // Store invariant
  // ---------------------------------------------------------------------

  predicate UniqueIds(s: CourseStore) {
    forall i, j :: 0 <= i < |s| && 0 <= j < |s| && i != j ==> s[i].id != s[j].id
  }

  predicate UniqueCodes(s: CourseStore) {
    forall i, j :: 0 <= i < |s| && 0 <= j < |s| && i != j ==> s[i].code != s[j].code
  }

  predicate PositiveCapacities(s: CourseStore) {
    forall i :: 0 <= i < |s| ==> s[i].capacity > 0
  }

  /** No two stored courses are reported against each other by the overlap query. */
  predicate NoOverlaps(s: CourseStore) {
    forall i, j :: 0 <= i < |s| && 0 <= j < |s| && i != j ==> !Overlaps(s[i].schedule, s[j].schedule)
  }

  predicate Invariant(s: CourseStore) {
    UniqueIds(s) && UniqueCodes(s) && PositiveCapacities(s) && NoOverlaps(s)
  }

  predicate HasId(s: CourseStore, id: string) {
    exists i :: 0 <= i < |s| && s[i].id == id
  }

  predicate CodeTaken(s: CourseStore, code: string) {
    exists i :: 0 <= i < |s| && s[i].code == code
  }

  /** Some stored course other than `excludeId` (any course, when it is null)
      is reported against `slot`. */
  predicate ConflictsWith(s: CourseStore, slot: ScheduleSlot, excludeId: Option<string>) {
    exists i :: 0 <= i < |s| && Overlaps(slot, s[i].schedule) && (excludeId.None? || s[i].id != excludeId.value)
  }

  // ---------------------------------------------------------------------
  // Course repository
  // ---------------------------------------------------------------------

  function FindById(s: CourseStore, id: string): (r: Option<Course>)
    ensures r.Some? <==> HasId(s, id)
    ensures r.Some? ==> r.value in s && r.value.id == id
  {
    match IndexWhere(s, (c: Course) => c.id == id)
    case None => None
    case Some(i) => Some(s[i])
  }

  function ExistsById(s: CourseStore, id: string): (b: bool)
    ensures b <==> HasId(s, id)
  {
    Any(s, (c: Course) => c.id == id)
  }

  function FindByCode(s: CourseStore, code: string): (r: Option<Course>)
    ensures r.Some? <==> CodeTaken(s, code)
    ensures r.Some? ==> r.value in s && r.value.code == code
  {
    match IndexWhere(s, (c: Course) => c.code == code)
    case None => None
    case Some(i) => Some(s[i])
  }

  function ExistsByCode(s: CourseStore, code: string): (b: bool)
    ensures b <==> CodeTaken(s, code)
  {
    Any(s, (c: Course) => c.code == code)
  }

  /** `existsByCode` and `findByCode` agree. */
  lemma ExistsByCodeIffFound(s: CourseStore, code: string)
    ensures ExistsByCode(s, code) <==> FindByCode(s, code).Some?
  {
  }

  /** `findByInstructor_Id`: exactly the courses taught by that instructor id. */
  function FindByInstructorId(s: CourseStore, instructorId: string): (r: seq<Course>)
    ensures forall c :: c in r <==> c in s && c.instructor.id == instructorId
  {
    Filter(s, (c: Course) => c.instructor.id == instructorId)
  }

  /** `findByEnrolledLessThan(n)`: every course is compared with the one
      threshold `n`, not with its own capacity. */
  function FindByEnrolledLessThan(s: CourseStore, n: int): (r: seq<Course>)
    ensures forall c :: c in r <==> c in s && c.enrolled < n
  {
    Filter(s, (c: Course) => c.enrolled < n)
  }

  /** A full course is still listed when the threshold is above its count. */
  lemma FullCourseListedBelowThreshold(s: CourseStore, c: Course, n: int)
    requires c in s && c.enrolled >= c.capacity && c.enrolled < n
    ensures c in FindByEnrolledLessThan(s, n)
  {
  }

  /** `findConflictingCourses(day, start, end)`. */
  function FindConflicting(s: CourseStore, day: string, start: string, end: string): (r: seq<Course>)
    ensures forall c :: c in r <==> c in s && MatchesConflictQuery(c.schedule, day, start, end)
  {
    Filter(s, (c: Course) => MatchesConflictQuery(c.schedule, day, start, end))
  }

  // ---------------------------------------------------------------------
  // Course service
  // ---------------------------------------------------------------------

  /** `checkTimeConflict(course, excludeId)`: the overlap query on the
      proposed slot, then "any result whose id differs from `excludeId`". The
      query does not look at the instructor. */
  function HasTimeConflict(s: CourseStore, slot: ScheduleSlot, excludeId: Option<string>): (b: bool)
    ensures b <==> ConflictsWith(s, slot, excludeId)
  {
    var found := FindConflicting(s, slot.dayOfWeek, slot.startTime, slot.endTime);
    ConflictQueryThenExclude(s, slot, excludeId);
    Any(found, (c: Course) => excludeId.None? || c.id != excludeId.value)
  }

  /** The query-then-filter shape of `checkTimeConflict` finds exactly the
      conflicts `ConflictsWith` describes. */
  lemma ConflictQueryThenExclude(s: CourseStore, slot: ScheduleSlot, excludeId: Option<string>)
    ensures var found := FindConflicting(s, slot.dayOfWeek, slot.startTime, slot.endTime);
            Any(found, (c: Course) => excludeId.None? || c.id != excludeId.value) <==> ConflictsWith(s, slot, excludeId)
  {
    var found := FindConflicting(s, slot.dayOfWeek, slot.startTime, slot.endTime);
    var other := (c: Course) => excludeId.None? || c.id != excludeId.value;
    if Any(found, other) {
      var k :| 0 <= k < |found| && other(found[k]);
      assert found[k] in found;
      var i :| 0 <= i < |s| && s[i] == found[k];
    }
    if ConflictsWith(s, slot, excludeId) {
      var i :| 0 <= i < |s| && Overlaps(slot, s[i].schedule) && other(s[i]);
      assert s[i] in found;
      var k :| 0 <= k < |found| && found[k] == s[i];
    }
  }

  /** A stored course and the record the service writes back. */
  datatype Saved = Saved(store: CourseStore, course: Course)

  /** `createCourse`: rejects a taken code, then an overlapping slot; the
      insert then stamps `createTime` and replaces a null `enrolled` with 0.
      The service itself does not check capacity. */
  function CreateCourse(s: CourseStore, body: CourseBody, freshId: string, now: Instant): (r: Result<Saved, CourseError>)
    requires !HasId(s, freshId)
    ensures body.code.Some? && CodeTaken(s, body.code.value) ==> r == Failure(CodeExists)
    ensures r == Failure(TimeConflict) <==>
              !(body.code.Some? && CodeTaken(s, body.code.value)) && ConflictsWith(s, body.schedule, None)
    ensures r == Failure(CodeMissing) <==> body.code.None? && !ConflictsWith(s, body.schedule, None)
    ensures r.Success? <==>
              body.code.Some? && !CodeTaken(s, body.code.value) && !ConflictsWith(s, body.schedule, None)
    ensures r.Success? ==>
              var c := r.value.course;
              && r.value.store == s + [c]
              && c.id == freshId && c.createTime == now
              && Some(c.code) == body.code && c.title == body.title
              && c.instructor == body.instructor && c.schedule == body.schedule
              && c.capacity == body.capacity
              && (body.enrolled.None? ==> c.enrolled == 0)
              && (body.enrolled.Some? ==> c.enrolled == body.enrolled.value)
  {
    if body.code.Some? && ExistsByCode(s, body.code.value) then Failure(CodeExists)
    else if HasTimeConflict(s, body.schedule, None) then Failure(TimeConflict)
    else if body.code.None? then Failure(CodeMissing)
    else
      var c := Course(freshId, body.code.value, body.title, body.instructor, body.schedule,
                      body.capacity, body.enrolled.GetOr(0), now);
      Success(Saved(s + [c], c))
  }

  /** `updateCourse(id, body)`: rejects an unknown id, then a body whose code
      differs from the stored one (a null code differs), then a capacity that
      is not positive, then a slot that overlaps another course. It copies
      only title, instructor, schedule and capacity onto the stored record. */
  function UpdateCourse(s: CourseStore, id: string, body: CourseBody): (r: Result<Saved, CourseError>)
    ensures r == Failure(CourseNotFound) <==> !HasId(s, id)
    ensures r.Success? ==> body.code.Some? && body.capacity > 0 && !ConflictsWith(s, body.schedule, Some(id))
    ensures r.Success? ==>
              exists i :: 0 <= i < |s| && s[i].id == id && r.value.store == s[i := r.value.course]
                && r.value.course == s[i].(title := body.title, instructor := body.instructor,
                                          schedule := body.schedule, capacity := body.capacity)
    ensures HasId(s, id) && body.code != Some(FindById(s, id).value.code) ==> r == Failure(CodeChanged)
    ensures HasId(s, id) && body.code == Some(FindById(s, id).value.code) ==>
              (r == Failure(CapacityNotPositive) <==> body.capacity <= 0)
    ensures HasId(s, id) && body.code == Some(FindById(s, id).value.code) && body.capacity > 0 ==>
              (r.Success? <==> !ConflictsWith(s, body.schedule, Some(id)))
    ensures (HasId(s, id) && body.code == Some(FindById(s, id).value.code) && body.capacity > 0
             && ConflictsWith(s, body.schedule, Some(id))) ==> r == Failure(TimeConflict)
  {
    match IndexWhere(s, (c: Course) => c.id == id)
    case None => Failure(CourseNotFound)
    case Some(i) =>
      var existing := s[i];
      if body.code != Some(existing.code) then Failure(CodeChanged)
      else if body.capacity <= 0 then Failure(CapacityNotPositive)
      else if HasTimeConflict(s, body.schedule, Some(id)) then Failure(TimeConflict)
      else
        var updated := existing.(title := body.title, instructor := body.instructor,
                                 schedule := body.schedule, capacity := body.capacity);
        Success(Saved(s[i := updated], updated))
  }

  /** `deleteCourse(id)`: rejects an unknown id, otherwise removes the course.
      There is no check for enrollments that still reference it. */
  function DeleteCourse(s: CourseStore, id: string): (r: Result<CourseStore, CourseError>)
    ensures r.Failure? <==> !HasId(s, id)
    ensures r.Failure? ==> r.error == CourseNotFound
    ensures r.Success? ==> exists i :: 0 <= i < |s| && s[i].id == id && r.value == RemoveAt(s, i)
  {
    if !ExistsById(s, id) then Failure(CourseNotFound)
    else
      var i := IndexWhere(s, (c: Course) => c.id == id).value;
      Success(RemoveAt(s, i))
  }

  /** In a store with unique ids, delete removes exactly the course with that
      id and keeps every other course, in order. */
  lemma DeleteRemovesOnlyThatCourse(s: CourseStore, id: string)
    requires UniqueIds(s) && HasId(s, id)
    ensures DeleteCourse(s, id).Success?
    ensures |DeleteCourse(s, id).value| == |s| - 1
    ensures forall c :: c in DeleteCourse(s, id).value <==> c in s && c.id != id
  {
    var t := DeleteCourse(s, id).value;
    var i :| 0 <= i < |s| && s[i].id == id && t == RemoveAt(s, i);
    forall c
      ensures c in t <==> c in s && c.id != id
    {
      RemoveAtMembers(s, i, c);
    }
  }

  /** `findAllCourses`: every course, ordered by code. */
  function FindAllCourses(s: CourseStore): (r: seq<Course>)
    ensures multiset(r) == multiset(s)
    ensures forall i, j :: 0 <= i < j < |r| ==> LessEq(r[i].code, r[j].code)
  {
    SortBy(s, (c: Course) => c.code)
  }

  /** The page index `getCoursesByPage` asks for: `max(pageNum - 1, 0)` in Java `int`. */
  function CoursePageIndex(pageNum: Int32): (index: int)
    ensures index >= 0
    ensures pageNum > -0x8000_0000 ==> index == if pageNum >= 1 then pageNum - 1 else 0
  {
    Max(Wrap(pageNum - 1), 0)
  }

  /** `getCoursesByPage`: the clamped page of the code-ordered list. */
  function GetCoursesByPage(s: CourseStore, pageNum: Int32, pageSize: Int32): (r: Result<seq<Course>, CourseError>)
    ensures r == Failure(BadPageRequest) <==> pageSize < 1
    ensures r == Failure(PageOffsetTooLarge) <==> pageSize >= 1 && CoursePageIndex(pageNum) * pageSize > 0x7fff_ffff
    ensures r.Failure? ==> r.error == BadPageRequest || r.error == PageOffsetTooLarge
    ensures r.Success? ==> |r.value| <= pageSize
    ensures r.Success? ==> forall c :: c in r.value ==> c in s
    ensures r.Success? ==> forall i, j :: 0 <= i < j < |r.value| ==> LessEq(r.value[i].code, r.value[j].code)
    ensures r.Success? ==>
              var all, start := FindAllCourses(s), CoursePageIndex(pageNum) * pageSize;
              && (forall k :: 0 <= k < |r.value| ==> start + k < |all| && r.value[k] == all[start + k])
              && (start < |all| ==> |r.value| == if |all| - start < pageSize then |all| - start else pageSize)
              && (start >= |all| ==> r.value == [])
  {
    match PageRequestOf(CoursePageIndex(pageNum), pageSize)
    case None => Failure(BadPageRequest)
    case Some(spec) =>
      if !OffsetFits(spec) then Failure(PageOffsetTooLarge)
      else Success(PageOfCourses(s, spec))
  }

  /** One page of the code-ordered courses, for a page request already accepted. */
  function PageOfCourses(s: CourseStore, spec: PageSpec): (r: seq<Course>)
    requires spec.size > 0
    ensures r == Page(FindAllCourses(s), spec.index, spec.size)
    ensures forall c :: c in r ==> c in s
    ensures forall i, j :: 0 <= i < j < |r| ==> LessEq(r[i].code, r[j].code)
  {
    var all := FindAllCourses(s);
    PageOfSorted(all, spec.index, spec.size, (c: Course) => c.code);
    assert forall c :: c in all ==> c in multiset(s);
    Page(all, spec.index, spec.size)
  }

  /** Page numbers 1 and below all give the first page ... */
  lemma NonPositivePageNumberGivesFirstPage(s: CourseStore, pageNum: Int32, pageSize: Int32)
    requires -0x8000_0000 < pageNum <= 1
    ensures GetCoursesByPage(s, pageNum, pageSize) == GetCoursesByPage(s, 1, pageSize)
  {
    assert CoursePageIndex(pageNum) == 0 == CoursePageIndex(1);
  }

  /** ... except `Integer.MIN_VALUE`: `pageNum - 1` wraps to
      `Integer.MAX_VALUE`. With one course per page that page lies past the
      end of any store an `int` can count; with larger pages its offset passes
      `Integer.MAX_VALUE` and the repository refuses it. */
  lemma {:induction false} LowestPageNumberWraps(s: CourseStore, pageSize: Int32)
    requires pageSize >= 1 && |s| <= 0x7fff_ffff
    ensures pageSize == 1 ==> GetCoursesByPage(s, -0x8000_0000, pageSize) == Success([])
    ensures pageSize > 1 ==> GetCoursesByPage(s, -0x8000_0000, pageSize) == Failure(PageOffsetTooLarge)
  {
    var index := CoursePageIndex(-0x8000_0000);
    assert index == 0x7fff_ffff by {
      DecrementWrapsOnlyAtMin(-0x8000_0000);
    }
    assert PageRequestOf(index, pageSize) == Some(PageSpec(index, pageSize));
    if pageSize == 1 {
      assert Page(FindAllCourses(s), index, pageSize) == [];
    } else {
      MultiplyAtLeastDouble(index, pageSize);
    }
  }

  /** Paging loses no course: every stored course is on the page that its
      position in code order gives, as long as an `int` page number can reach
      that page. */
  lemma {:induction false} EveryCourseIsListed(s: CourseStore, c: Course, pageSize: Int32)
    requires c in s && pageSize >= 1 && |s| <= 0x7fff_ffff
    ensures exists pageNum: Int32 :: pageNum >= 1 && GetCoursesByPage(s, pageNum, pageSize).Success?
                                     && c in GetCoursesByPage(s, pageNum, pageSize).value
  {
    var all := FindAllCourses(s);
    assert |all| == |s| by {
      assert |multiset(all)| == |multiset(s)|;
    }
    assert c in multiset(all);
    var i :| 0 <= i < |all| && all[i] == c;
    var q := i / pageSize;
    PageOfPosition(i, pageSize, |s|);
    var pageNum: Int32 := q + 1;
    PositivePageIndex(pageNum);
    assert PageRequestOf(q, pageSize) == Some(PageSpec(q, pageSize));
    EveryRecordOnItsPage(all, pageSize, i);
    assert GetCoursesByPage(s, pageNum, pageSize) == Success(PageOfCourses(s, PageSpec(q, pageSize)));
  }

  lemma PositivePageIndex(pageNum: Int32)
    requires pageNum >= 1
    ensures CoursePageIndex(pageNum) == pageNum - 1
  {
  }

  lemma MultiplyAtLeastDouble(a: nat, b: nat)
    requires b >= 2
    ensures a * b >= a + a
  {
    assert a * b == a * (b - 2) + a + a;
  }

  // ---------------------------------------------------------------------
  // Invariant preservation
  // ---------------------------------------------------------------------

  lemma CreatePreservesInvariant(s: CourseStore, body: CourseBody, freshId: string, now: Instant)
    requires Invariant(s) && ValidBody(body) && !HasId(s, freshId)
    ensures CreateCourse(s, body, freshId, now).Success? ==> Invariant(CreateCourse(s, body, freshId, now).value.store)
  {
    var r := CreateCourse(s, body, freshId, now);
    if r.Success? {
      AppendPreservesInvariant(s, r.value.course);
    }
  }

  /** Appending a course with a fresh id, a free code, a positive capacity and
      no overlap keeps the invariant. */
  lemma AppendPreservesInvariant(s: CourseStore, c: Course)
    requires Invariant(s) && c.capacity > 0 && !HasId(s, c.id) && !CodeTaken(s, c.code)
    requires !ConflictsWith(s, c.schedule, None)
    ensures Invariant(s + [c])
  {
    var t := s + [c];
    forall i | 0 <= i < |s|
      ensures !Overlaps(c.schedule, s[i].schedule) && !Overlaps(s[i].schedule, c.schedule)
    {
      OverlapsSymmetric(c.schedule, s[i].schedule);
    }
    assert UniqueIds(t) && UniqueCodes(t) && PositiveCapacities(t);
    assert NoOverlaps(t) by {
      forall i, j | 0 <= i < |t| && 0 <= j < |t| && i != j
        ensures !Overlaps(t[i].schedule, t[j].schedule)
      {
        if i == |s| {
          assert t[j] == s[j];
        } else if j == |s| {
          assert t[i] == s[i];
        } else {
          assert t[i] == s[i] && t[j] == s[j];
        }
      }
    }
  }

  lemma UpdatePreservesInvariant(s: CourseStore, id: string, body: CourseBody)
    requires Invariant(s)
    ensures UpdateCourse(s, id, body).Success? ==> Invariant(UpdateCourse(s, id, body).value.store)
  {
    var r := UpdateCourse(s, id, body);
    if r.Success? {
      var i :| 0 <= i < |s| && s[i].id == id && r.value.store == s[i := r.value.course]
                && r.value.course == s[i].(title := body.title, instructor := body.instructor,
                                          schedule := body.schedule, capacity := body.capacity);
      var t := r.value.store;
      forall j | 0 <= j < |s| && j != i
        ensures !Overlaps(t[i].schedule, t[j].schedule) && !Overlaps(t[j].schedule, t[i].schedule)
      {
        OverlapsSymmetric(t[i].schedule, t[j].schedule);
      }
    }
  }

  lemma DeletePreservesInvariant(s: CourseStore, id: string)
    requires Invariant(s)
    ensures DeleteCourse(s, id).Success? ==> Invariant(DeleteCourse(s, id).value)
  {
    if DeleteCourse(s, id).Success? {
      var i :| 0 <= i < |s| && s[i].id == id && DeleteCourse(s, id).value == RemoveAt(s, i);
      RemoveAtPreservesInvariant(s, i);
    }
  }

  lemma RemoveAtPreservesInvariant(s: CourseStore, i: nat)
    requires Invariant(s) && i < |s|
    ensures Invariant(RemoveAt(s, i))
  {
    var t := RemoveAt(s, i);
    forall a, b | 0 <= a < |t| && 0 <= b < |t| && a != b
      ensures t[a].id != t[b].id && t[a].code != t[b].code
      ensures !Overlaps(t[a].schedule, t[b].schedule)
    {
      var a', b' := if a < i then a else a + 1, if b < i then b else b + 1;
      assert t[a] == s[a'] && t[b] == s[b'];
    }
  }

  // ---------------------------------------------------------------------
  // Properties of update
  // ---------------------------------------------------------------------

  /** The conflict check run by update ignores the course being updated: it
      answers as the create-time check would on the store without that course. */
  lemma ExcludedIdIsIgnored(s: CourseStore, slot: ScheduleSlot, id: string)
    requires UniqueIds(s) && HasId(s, id)
    ensures HasTimeConflict(s, slot, Some(id)) == HasTimeConflict(DeleteCourse(s, id).value, slot, None)
  {
    DeleteRemovesOnlyThatCourse(s, id);
    var t := DeleteCourse(s, id).value;
    if ConflictsWith(s, slot, Some(id)) {
      var i :| 0 <= i < |s| && Overlaps(slot, s[i].schedule) && s[i].id != id;
      assert s[i] in t;
    }
    if ConflictsWith(t, slot, None) {
      var k :| 0 <= k < |t| && Overlaps(slot, t[k].schedule);
      assert t[k] in t;
    }
  }

  /** Re-submitting a stored course unchanged succeeds and changes nothing:
      its own slot never conflicts with itself, and no other course overlaps it. */
  lemma ResubmitUnchangedIsNoOp(s: CourseStore, i: nat)
    requires Invariant(s) && i < |s|
    ensures var c := s[i];
            UpdateCourse(s, c.id, CourseBody(Some(c.code), c.title, c.instructor, c.schedule, c.capacity, None))
              == Success(Saved(s, c))
  {
    var c := s[i];
    var body := CourseBody(Some(c.code), c.title, c.instructor, c.schedule, c.capacity, None);
    assert !ConflictsWith(s, c.schedule, Some(c.id));
    var r := UpdateCourse(s, c.id, body);
    var k :| 0 <= k < |s| && s[k].id == c.id && r.value.store == s[k := r.value.course]
               && r.value.course == s[k].(title := body.title, instructor := body.instructor,
                                          schedule := body.schedule, capacity := body.capacity);
    assert k == i;
    assert s[i := c] == s;
  }

  /** A body without a code never updates anything, whatever else it holds. */
  lemma BodyWithoutCodeIsRejected(s: CourseStore, id: string, body: CourseBody)
    requires body.code.None?
    ensures UpdateCourse(s, id, body).Failure?
    ensures UpdateCourse(s, id, body).error == if HasId(s, id) then CodeChanged else CourseNotFound
  {
  }

  /** No successful update changes a course's id, code, seat count or creation time. */
  lemma UpdateKeepsServerFields(s: CourseStore, id: string, body: CourseBody)
    requires UniqueIds(s) && UpdateCourse(s, id, body).Success?
    ensures var c := UpdateCourse(s, id, body).value.course;
            var prev := FindById(s, id).value;
            c.id == prev.id && c.code == prev.code && c.enrolled == prev.enrolled && c.createTime == prev.createTime
  {
    var r := UpdateCourse(s, id, body);
    var i :| 0 <= i < |s| && s[i].id == id && r.value.store == s[i := r.value.course]
               && r.value.course == s[i].(title := body.title, instructor := body.instructor,
                                          schedule := body.schedule, capacity := body.capacity);
    var prev := FindById(s, id).value;
    var j :| 0 <= j < |s| && s[j] == prev;
    assert j == i;
  }
}
