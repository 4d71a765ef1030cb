# Course enrollment services in Dafny

This project models two small record-management services for course enrollment.

- The **catalog service** keeps courses. Each course has a unique code, a schedule slot, a capacity and an `enrolled` seat counter.
- The **enrollment service** keeps students and enrollment records. Enrolling or dropping calls the catalog over HTTP: it reads a course's capacity and counter, then tries to write the counter back.

Each store is a sequence of records, in table order. Each repository query is a pure function over that sequence. Each service operation is a pure function from a store and a request to a `Result`. The `Result` carries either the new store or the exception the service throws.

Every error datatype has a `Kind()`, which records the class of the exception thrown:

- `Conflict` is an `IllegalArgumentException`.
- `NotFound` is any other `RuntimeException`.

A handler that catches both answers 400 for the first and 404 for the second. In the enrollment service, a global exception handler (GlobalExceptionHandler.java:10-22) answers anything a controller does not catch in the same way. The catalog service has no such handler, and not every one of its controller methods catches both: "## Left out" lists the cases that answer differently.

Paging follows Spring Data JPA 3, whose code is not part of this model. `PageRequest.of` rejects a negative page index or a size below 1 with an `IllegalArgumentException`. The repository then turns the page into an `int` query offset, page index times page size. It refuses an offset beyond `Integer.MAX_VALUE` with an `InvalidDataAccessApiUsageException`, modelled as `PageOffsetTooLarge`.

The modules follow the program's structure:

| module | what it holds |
|---|---|
| `Prelude`, `JavaInt` | `Option`, `Result`, timestamps; Java `int` with its wrap-around |
| `Strings`, `Seqs`, `Paging` | Text ordering (used by `Sort.by` and by JPQL `<`); derived-query filters, counts and a stable sort; `PageRequest` paging |
| `Schedule` | A course's schedule slot and the overlap query |
| `Catalog` | The course repository and the course service |
| `EnrollmentStore` | The enrollment record, its status enum and its repository |
| `Students` | The student repository and the student service |
| `Enrollments` | The enrollment service. The catalog's answers are inputs, and the seat writes it wants to send are outputs. |
| `Deployment` | Both services wired together: the catalog's reply is computed from a catalog store, and the seat write is applied to that store |

### Where the code and its description differ

The model follows the code. The differences are:

- **Capacity.** The intended behaviour is that a course at capacity refuses the next student, and that the counter tracks enrollments and drops. In the code the seat write is always refused by the catalog, so the counter never moves. The capacity check therefore passes for as long as the counter's creation-time value is below capacity. See "Findings".
- **Capacity check source.** The check reads the catalog's counter. It does not count the local ACTIVE enrollments.
- **Re-enrolling after a drop.** This is refused. The duplicate check and the unique constraint both ignore status (`Enrollments.ReEnrollAfterDropRejected`).
- **Course delete.** It has no guard against enrollments that still reference the course, because that check is commented out.
- **Schedule conflicts.** They are not per instructor. The conflict query compares day and times only, so any two courses on the same day with intersecting times conflict. The times are compared as text (`Schedule.UnpaddedTimesMissAnOverlap`).
- **Listing a course's enrollments.** A missing course is not reported as missing while the catalog is up. The catalog answers HTTP 200 with an in-body 404, and the lookup only treats an HTTP error as "not found".
- **Course page numbers.** Page numbers 1 and below give the first page. Student page numbers below 1 are rejected.

## Model

| member | source | states |
|---|---|---|
| Schedule.OverlapsSymmetric | src/main/java/com/zjgsu/cyd/course/repository/CourseRepository.java:53-56 | The overlap query reports a pair of slots the same way whichever of the two is the stored one |
| Schedule.SequentialSlotsDoNotOverlap | src/main/java/com/zjgsu/cyd/course/repository/CourseRepository.java:53-56 | A slot that ends no later than another starts is never reported against it, in either direction. Touching slots do not conflict. |
| Schedule.SelfOverlap | src/main/java/com/zjgsu/cyd/course/repository/CourseRepository.java:53-56 | A slot is reported against itself exactly when its start sorts before its end |
| Schedule.UnpaddedTimesMissAnOverlap | src/main/java/com/zjgsu/cyd/course/repository/CourseRepository.java:53-56 | Times are compared as text, so "9:00"-"11:00" and "10:00"-"10:30" on one day are not reported |
| Catalog.FindById | src/main/java/com/zjgsu/cyd/course/repository/CourseRepository.java:27 | Finds a course exactly when one has that id, and returns that stored course |
| Catalog.ExistsById | catalog-service/src/main/java/com/cyd/catalogservice/service/CourseService.java:130 | True exactly when some stored course has the id |
| Catalog.FindByCode | src/main/java/com/zjgsu/cyd/course/repository/CourseRepository.java:38 | Finds a course exactly when the code is taken, and returns a stored course with that code |
| Catalog.ExistsByCode | src/main/java/com/zjgsu/cyd/course/repository/CourseRepository.java:41 | True exactly when the code is taken |
| Catalog.ExistsByCodeIffFound | src/main/java/com/zjgsu/cyd/course/repository/CourseRepository.java:38-41 | The exists-query and the find-query on a code agree |
| Catalog.FindByInstructorId | src/main/java/com/zjgsu/cyd/course/repository/CourseRepository.java:44 | Returns exactly the stored courses whose embedded instructor has that id |
| Catalog.FindByEnrolledLessThan | src/main/java/com/zjgsu/cyd/course/repository/CourseRepository.java:47 | Returns exactly the courses whose counter is below the single threshold given |
| Catalog.FullCourseListedBelowThreshold | src/main/java/com/zjgsu/cyd/course/repository/CourseRepository.java:46-47 | A full course is still returned when its counter is below the threshold: the query does not compare with each course's own capacity |
| Catalog.FindConflicting | src/main/java/com/zjgsu/cyd/course/repository/CourseRepository.java:53-61 | Returns exactly the courses on that day whose start is before the given end and whose end is after the given start |
| Catalog.HasTimeConflict | catalog-service/src/main/java/com/cyd/catalogservice/service/CourseService.java:25-43 | True exactly when some stored course other than the excluded id overlaps the slot |
| Catalog.ConflictQueryThenExclude | catalog-service/src/main/java/com/cyd/catalogservice/service/CourseService.java:27-35 | Running the repository query and then dropping the excluded id finds exactly the conflicts over the whole store |
| Catalog.CreateCourse | catalog-service/src/main/java/com/cyd/catalogservice/service/CourseService.java:82-96 | Checks in this order: taken code, then schedule conflict, then missing code. On success it appends a course carrying the body's fields, the fresh id and the creation time, with a null `enrolled` read as 0. |
| Catalog.CreatePreservesInvariant | catalog-service/src/main/java/com/cyd/catalogservice/service/CourseService.java:82-96 | For a body with positive capacity, a successful create keeps these unique: ids, codes, positive capacities, and non-overlapping slots |
| Catalog.UpdateCourse | catalog-service/src/main/java/com/cyd/catalogservice/service/CourseService.java:100-124 | Checks in this order: unknown id, then changed code (a null code counts as changed), then non-positive capacity, then a conflict with another course, and each check fails with its own error. On success it rewrites that record in place, copying only title, instructor, schedule and capacity. |
| Catalog.UpdatePreservesInvariant | catalog-service/src/main/java/com/cyd/catalogservice/service/CourseService.java:100-124 | A successful update keeps the catalog invariant |
| Catalog.ExcludedIdIsIgnored | catalog-service/src/main/java/com/cyd/catalogservice/service/CourseService.java:33-35 | The update-time conflict check answers the same as the create-time check on the store without the course being updated |
| Catalog.ResubmitUnchangedIsNoOp | catalog-service/src/main/java/com/cyd/catalogservice/service/CourseService.java:100-124 | Re-submitting a stored course unchanged succeeds and leaves the store as it was |
| Catalog.BodyWithoutCodeIsRejected | catalog-service/src/main/java/com/cyd/catalogservice/service/CourseService.java:105-108 | A body without a code never updates. The error is "code changed" for a known id and "not found" otherwise. |
| Catalog.UpdateKeepsServerFields | catalog-service/src/main/java/com/cyd/catalogservice/service/CourseService.java:118-123 | A successful update never changes id, code, seat counter or creation time |
| Catalog.DeleteCourse | catalog-service/src/main/java/com/cyd/catalogservice/service/CourseService.java:128-141 | Fails with "not found" exactly for an unknown id. Otherwise it removes that course, whatever enrollments exist. |
| Catalog.DeleteRemovesOnlyThatCourse | catalog-service/src/main/java/com/cyd/catalogservice/service/CourseService.java:128-141 | With unique ids, delete leaves exactly the other courses, one fewer |
| Catalog.DeletePreservesInvariant | catalog-service/src/main/java/com/cyd/catalogservice/service/CourseService.java:128-141 | A successful delete keeps the catalog invariant |
| Catalog.FindAllCourses | catalog-service/src/main/java/com/cyd/catalogservice/service/CourseService.java:69-73 | Returns a permutation of the store, ordered by code |
| Catalog.CoursePageIndex | catalog-service/src/main/java/com/cyd/catalogservice/service/CourseService.java:47-48 | The page index is never negative. It is `pageNum - 1` for page numbers of at least 1, and 0 for the others except `Integer.MIN_VALUE`. |
| Catalog.GetCoursesByPage | catalog-service/src/main/java/com/cyd/catalogservice/service/CourseService.java:45-58 | Fails with the bad-request error exactly when the page size is below 1. It fails with the offset error exactly when the size is valid and page index times size exceeds `Integer.MAX_VALUE`. Otherwise it returns at most a page size of stored courses, ordered by code. The page is the slice of the code-ordered catalog starting at page index times page size: full when enough courses remain, the remainder on the last page, and empty past the end. |
| Catalog.NonPositivePageNumberGivesFirstPage | catalog-service/src/main/java/com/cyd/catalogservice/service/CourseService.java:47-48 | Every page number from `MIN_VALUE + 1` to 1 gives the first page |
| Catalog.LowestPageNumberWraps | catalog-service/src/main/java/com/cyd/catalogservice/service/CourseService.java:47-54 | Page number `Integer.MIN_VALUE` wraps to page index `MAX_VALUE`. With page size 1 that gives an empty list. With any larger size, the offset exceeds `Integer.MAX_VALUE` and the repository refuses it. |
| Catalog.EveryCourseIsListed | catalog-service/src/main/java/com/cyd/catalogservice/service/CourseService.java:45-58 | Paging loses no course. For any valid page size, every stored course appears on some page numbered from 1, provided the store holds at most `Integer.MAX_VALUE` courses. |
| EnrollmentStore.FindById | enrollment-service/src/main/java/com/cyd/enrollmentservice/repository/EnrollmentRepository.java:28-29 | Finds a record exactly when one has that id, and returns that stored record |
| EnrollmentStore.FindByCourseId | enrollment-service/src/main/java/com/cyd/enrollmentservice/repository/EnrollmentRepository.java:32 | Returns exactly the records of that course |
| EnrollmentStore.FindByStudentId | enrollment-service/src/main/java/com/cyd/enrollmentservice/repository/EnrollmentRepository.java:35 | Returns exactly the records of that student number |
| EnrollmentStore.ExistsByCourseIdAndStudentId | enrollment-service/src/main/java/com/cyd/enrollmentservice/repository/EnrollmentRepository.java:38 | True exactly when a record for the pair exists, in any status |
| EnrollmentStore.ExistsByStudentId | enrollment-service/src/main/java/com/cyd/enrollmentservice/repository/EnrollmentRepository.java:45 | True exactly when some record references the student number |
| EnrollmentStore.FindByCourseIdAndStatus | enrollment-service/src/main/java/com/cyd/enrollmentservice/repository/EnrollmentRepository.java:48 | Returns exactly the records of that course in that status |
| EnrollmentStore.FindByStudentIdAndStatus | enrollment-service/src/main/java/com/cyd/enrollmentservice/repository/EnrollmentRepository.java:51 | Returns exactly the records of that student in that status |
| EnrollmentStore.CountByCourseIdAndStatus | enrollment-service/src/main/java/com/cyd/enrollmentservice/repository/EnrollmentRepository.java:54 | The count equals the number of records that the course-and-status find query returns |
| EnrollmentStore.FindEnrollmentsByCourseIdAndStatus | enrollment-service/src/main/java/com/cyd/enrollmentservice/repository/EnrollmentRepository.java:57-61 | A record is returned exactly when it is in the table with that course and that status |
| EnrollmentStore.DeleteById | enrollment-service/src/main/java/com/cyd/enrollmentservice/repository/EnrollmentRepository.java:41-42 | An unknown id changes nothing. Otherwise the record with that id is removed. |
| EnrollmentStore.JpqlMatchesDerivedQuery | enrollment-service/src/main/java/com/cyd/enrollmentservice/repository/EnrollmentRepository.java:47-61 | The JPQL query returns the same records, in the same order, as the derived course-and-status query |
| EnrollmentStore.ExistsByStudentIdIffFound | enrollment-service/src/main/java/com/cyd/enrollmentservice/repository/EnrollmentRepository.java:35-45 | `existsByStudentId` holds exactly when `findByStudentId` is non-empty |
| EnrollmentStore.StudentStatusQueryNarrowsStudentQuery | enrollment-service/src/main/java/com/cyd/enrollmentservice/repository/EnrollmentRepository.java:35-51 | The student-and-status query is the student query filtered by status |
| EnrollmentStore.DeleteByIdRemovesOnlyThatRecord | enrollment-service/src/main/java/com/cyd/enrollmentservice/repository/EnrollmentRepository.java:41-42 | With unique ids, delete keeps exactly the records with other ids |
| EnrollmentStore.InsertPreservesInvariant | enrollment-service/src/main/java/com/cyd/enrollmentservice/model/Enrollment.java:16-22 | Appending a well-formed record with a new id and a new pair keeps ids and pairs unique |
| EnrollmentStore.StatusChangePreservesInvariant | enrollment-service/src/main/java/com/cyd/enrollmentservice/model/Enrollment.java:16-22 | Changing one record's status keeps ids and pairs unique |
| Students.FindById | enrollment-service/src/main/java/com/cyd/enrollmentservice/service/StudentService.java:55-57 | Finds a student exactly when one has that id |
| Students.FindByStudentId | enrollment-service/src/main/java/com/cyd/enrollmentservice/repository/StudentRepository.java:18 | Finds a student exactly when the student number is taken |
| Students.FindByEmail | enrollment-service/src/main/java/com/cyd/enrollmentservice/repository/StudentRepository.java:21 | Finds a student exactly when the email is taken |
| Students.ExistsByStudentId | enrollment-service/src/main/java/com/cyd/enrollmentservice/repository/StudentRepository.java:24 | True exactly when the student number is taken |
| Students.ExistsByEmail | enrollment-service/src/main/java/com/cyd/enrollmentservice/repository/StudentRepository.java:27 | True exactly when the email is taken |
| Students.ExistsIffFound | enrollment-service/src/main/java/com/cyd/enrollmentservice/repository/StudentRepository.java:18-27 | On the same key, the exists-queries agree with the find-queries |
| Students.FindByMajor | enrollment-service/src/main/java/com/cyd/enrollmentservice/repository/StudentRepository.java:30 | Returns exactly the students of that major |
| Students.FindByGrade | enrollment-service/src/main/java/com/cyd/enrollmentservice/repository/StudentRepository.java:33 | Returns exactly the students of that grade |
| Students.FindByMajorAndGrade | enrollment-service/src/main/java/com/cyd/enrollmentservice/repository/StudentRepository.java:36 | Returns exactly the students of that major and that grade |
| Students.MajorAndGradeIsIntersection | enrollment-service/src/main/java/com/cyd/enrollmentservice/repository/StudentRepository.java:30-36 | The combined query is the major query narrowed by grade, and it is the intersection of the two queries |
| Students.CreateStudent | enrollment-service/src/main/java/com/cyd/enrollmentservice/service/StudentService.java:29-45 | A taken student number is refused first, then a taken email. On success it appends the body's student with the fresh id and creation time. |
| Students.CreatePreservesInvariant | enrollment-service/src/main/java/com/cyd/enrollmentservice/service/StudentService.java:29-45 | For a valid body, create keeps these unique: ids, student numbers and emails |
| Students.UpdateStudent | enrollment-service/src/main/java/com/cyd/enrollmentservice/service/StudentService.java:78-100 | Checks in this order: unknown id, then changed student number, then a changed email that is already taken (keeping one's own email passes). On success it copies name, major, grade and email in place. |
| Students.UpdatePreservesInvariant | enrollment-service/src/main/java/com/cyd/enrollmentservice/service/StudentService.java:78-100 | A successful update keeps student numbers and emails unique |
| Students.DeleteStudent | enrollment-service/src/main/java/com/cyd/enrollmentservice/service/StudentService.java:104-118 | An unknown id gives "not found". A student whose number any enrollment references, in any status, is refused. Otherwise that student is removed. |
| Students.DeletePreservesInvariant | enrollment-service/src/main/java/com/cyd/enrollmentservice/service/StudentService.java:104-118 | A successful delete keeps the student invariant |
| Students.DeletedStudentHasNoEnrollments | enrollment-service/src/main/java/com/cyd/enrollmentservice/service/StudentService.java:110-114 | After a successful delete, no enrollment references the removed student number |
| Students.FindAllStudents | enrollment-service/src/main/java/com/cyd/enrollmentservice/service/StudentService.java:48-52 | Returns a permutation of the table, ordered by student number |
| Students.Matching | enrollment-service/src/main/java/com/cyd/enrollmentservice/service/StudentService.java:64-74 | The list the paged filters cut into pages holds exactly the matching students, each as often as in the table, ordered by student number |
| Students.FilteredPage | enrollment-service/src/main/java/com/cyd/enrollmentservice/service/StudentService.java:64-74 | Fails with the bad-request error exactly when the page size is below 1 or the page number is below 1, except `MIN_VALUE`, which wraps. It fails with the offset error exactly when `(pageNum - 1) * pageSize` exceeds `Integer.MAX_VALUE`. Otherwise it returns at most a page size of matching students, ordered by number. The page is the slice of the number-ordered matching students starting at `(pageNum - 1) * pageSize`, full, partial or empty in the same way. |
| Students.FindStudentsByMajor | enrollment-service/src/main/java/com/cyd/enrollmentservice/service/StudentService.java:65-68 | Fails exactly on the page requests `FilteredPage` refuses. Otherwise it returns page `pageNum - 1` of that major's students in student-number order. So every returned student is stored and has that major. |
| Students.FindStudentsByGrade | enrollment-service/src/main/java/com/cyd/enrollmentservice/service/StudentService.java:71-74 | Fails exactly on the page requests `FilteredPage` refuses. Otherwise it returns page `pageNum - 1` of that grade's students in student-number order. So every returned student is stored and has that grade. |
| Students.EveryMatchingStudentIsListed | enrollment-service/src/main/java/com/cyd/enrollmentservice/service/StudentService.java:64-74 | The paged filters lose no student. For any valid page size, every matching student appears on some page numbered from 1, provided the table holds at most `Integer.MAX_VALUE` students. |
| Students.EveryStudentOfMajorIsListed | enrollment-service/src/main/java/com/cyd/enrollmentservice/service/StudentService.java:65-68 | Every stored student appears on some page of their major's listing |
| Students.EveryStudentOfGradeIsListed | enrollment-service/src/main/java/com/cyd/enrollmentservice/service/StudentService.java:71-74 | Every stored student appears on some page of their grade's listing |
| Students.PageIndexIsIntDecrement | enrollment-service/src/main/java/com/cyd/enrollmentservice/service/StudentService.java:66 | The page index the filters use is `pageNum - 1` in Java `int` arithmetic, so `MIN_VALUE` wraps to `MAX_VALUE` |
| Students.PageNumberZeroIsRejected | enrollment-service/src/main/java/com/cyd/enrollmentservice/service/StudentService.java:66 | Page number 0 is rejected, not clamped |
| Enrollments.ResolveCourse | enrollment-service/src/main/java/com/cyd/enrollmentservice/service/EnrollmentService.java:41-58 | Only a 200 carrying course data resolves. A null body and an HTTP 404 both give "course not found". |
| Enrollments.EnrollCourse | enrollment-service/src/main/java/com/cyd/enrollmentservice/service/EnrollmentService.java:36-83 | Checks in this order: course reply, then student number, then pair taken in any status, then `enrolled >= capacity`. On success it appends an ACTIVE record and asks the catalog for `enrolled + 1`. |
| Enrollments.EnrollPreservesInvariant | enrollment-service/src/main/java/com/cyd/enrollmentservice/service/EnrollmentService.java:36-83 | For a valid request, a successful enroll keeps ids and (course, student) pairs unique |
| Enrollments.EnrollTakesOneSeat | enrollment-service/src/main/java/com/cyd/enrollmentservice/service/EnrollmentService.java:68-80 | The course's ACTIVE count goes up by exactly one. The count sent to the catalog never exceeds the capacity it read. |
| Enrollments.SeatsAfterDrop | enrollment-service/src/main/java/com/cyd/enrollmentservice/service/EnrollmentService.java:127-130 | The drop-time count is never negative. It is one less for a positive count and 0 for other counts, except `MIN_VALUE`, which wraps to `MAX_VALUE`. |
| Enrollments.DropCourse | enrollment-service/src/main/java/com/cyd/enrollmentservice/service/EnrollmentService.java:103-138 | An unknown id and an already DROPPED record are refused. Every other id succeeds whatever the catalog answers, because catalog failures are swallowed. That record becomes DROPPED, and a seat write is produced only when the catalog answered with the course. |
| Enrollments.DropPreservesInvariant | enrollment-service/src/main/java/com/cyd/enrollmentservice/service/EnrollmentService.java:103-138 | A successful drop keeps the table invariant |
| Enrollments.DropFreesOneSeat | enrollment-service/src/main/java/com/cyd/enrollmentservice/service/EnrollmentService.java:113-115 | Dropping an ACTIVE record lowers its course's ACTIVE count by one. Dropping a COMPLETED record leaves that count unchanged. |
| Enrollments.DroppedIsTerminal | enrollment-service/src/main/java/com/cyd/enrollmentservice/service/EnrollmentService.java:108-111 | Dropping a DROPPED record is always refused as already dropped |
| Enrollments.DropTwiceFails | enrollment-service/src/main/java/com/cyd/enrollmentservice/service/EnrollmentService.java:103-115 | A second drop of the same enrollment fails, whatever the catalog answers |
| Enrollments.ReEnrollAfterDropRejected | enrollment-service/src/main/java/com/cyd/enrollmentservice/service/EnrollmentService.java:63-66 | After a drop, enrolling the same pair again always fails. Once course and student resolve, the error is the duplicate error. |
| Enrollments.NothingAssignsCompleted | enrollment-service/src/main/java/com/cyd/enrollmentservice/service/EnrollmentService.java:75-77 | Neither enroll nor drop makes a record COMPLETED. Every COMPLETED record afterwards was already there. |
| Enrollments.CompletedIsDroppable | enrollment-service/src/main/java/com/cyd/enrollmentservice/service/EnrollmentService.java:108-115 | A COMPLETED record can be dropped, and it becomes DROPPED |
| Enrollments.DropSeatUpdateNeverNegative | enrollment-service/src/main/java/com/cyd/enrollmentservice/service/EnrollmentService.java:117-137 | A drop sends a seat write exactly when the catalog returned the course, and never asks for a negative count |
| Enrollments.FindEnrollmentsByCourseId | enrollment-service/src/main/java/com/cyd/enrollmentservice/service/EnrollmentService.java:153-174 | Any HTTP 200 lets the lookup through, and it returns exactly the course's records. Only an HTTP 404 gives "course not found". Any other 4xx gives the call-failed error, and an unreachable catalog gives the catch-all error. |
| Enrollments.MissingCourseListsNoEnrollmentsInsteadOfFailing | enrollment-service/src/main/java/com/cyd/enrollmentservice/service/EnrollmentService.java:156-159 | A 200 with null data for a course that has no records gives an empty list, not an error |
| Enrollments.FindEnrollmentsByStudentId | enrollment-service/src/main/java/com/cyd/enrollmentservice/service/EnrollmentService.java:184-189 | Fails exactly for an unknown student number. Otherwise it returns exactly that student's records. |
| Enrollments.FindEnrollmentsByStudentIdAndStatus | enrollment-service/src/main/java/com/cyd/enrollmentservice/service/EnrollmentService.java:192-196 | Fails exactly for an unknown student number. Otherwise it returns exactly that student's records in that status. |
| Deployment.CourseReplyFrom | catalog-service/src/main/java/com/cyd/catalogservice/controller/CourseController.java:37-42 | The catalog always answers 200. The data is present exactly when the course exists, and then it carries that course's capacity and counter. |
| Deployment.ApplySeatUpdate | enrollment-service/src/main/java/com/cyd/enrollmentservice/service/EnrollmentService.java:85-98 | As written, the seat write never changes the catalog: the body carries no code |
| Deployment.SystemEnroll | enrollment-service/src/main/java/com/cyd/enrollmentservice/service/EnrollmentService.java:36-83 | End to end, enroll succeeds exactly when: the catalog is up and has the course, the student exists, the pair is new, and the course's stored counter is below capacity. The catalog is then left unchanged. |
| Deployment.SystemDrop | enrollment-service/src/main/java/com/cyd/enrollmentservice/service/EnrollmentService.java:103-138 | End to end, drop fails exactly for an unknown or already dropped record. Success marks it DROPPED and leaves the catalog unchanged. |
| Deployment.CourseListingNeverNotFoundWhenUp | enrollment-service/src/main/java/com/cyd/enrollmentservice/service/EnrollmentService.java:153-174 | While the catalog is up, listing a course's enrollments never fails, even for a course the catalog lacks |
| Deployment.OverbookingAsWritten | enrollment-service/src/main/java/com/cyd/enrollmentservice/service/EnrollmentService.java:68-80 | Two students both enroll in a one-seat course: two seats are held against capacity 1 |
| Deployment.ApplySeatUpdateFixed | enrollment-service/src/main/java/com/cyd/enrollmentservice/service/EnrollmentService.java:85-91 | The intended seat write sets only that course's counter. Ids, capacities and other courses are unchanged. |
| Deployment.SystemEnrollFixed | enrollment-service/src/main/java/com/cyd/enrollmentservice/service/EnrollmentService.java:36-83 | Enroll with the intended seat write has the same success condition, and appends the same ACTIVE record |
| Deployment.SystemDropFixed | enrollment-service/src/main/java/com/cyd/enrollmentservice/service/EnrollmentService.java:103-138 | Drop with the intended seat write fails on the same inputs, and marks the same record DROPPED |
| Deployment.FixedEnrollKeepsSeatsAccounted | enrollment-service/src/main/java/com/cyd/enrollmentservice/service/EnrollmentService.java:68-80 | With the intended write, enroll keeps held seats ≤ counter ≤ capacity for every course |
| Deployment.FixedDropKeepsSeatsAccounted | enrollment-service/src/main/java/com/cyd/enrollmentservice/service/EnrollmentService.java:117-133 | With the intended write, drop keeps held seats ≤ counter ≤ capacity for every course, whether or not the catalog was reachable |
| Deployment.FixedRefusesFullCourse | enrollment-service/src/main/java/com/cyd/enrollmentservice/service/EnrollmentService.java:68-73 | With the intended write, a course whose held seats reached capacity refuses the next student with the capacity error |
| Deployment.NoOverbookingFixed | enrollment-service/src/main/java/com/cyd/enrollmentservice/service/EnrollmentService.java:68-80 | With the intended write, the same one-seat run moves the counter to 1 and refuses the second student |

## Findings

| source | as written | input that shows it | evidently intended | confidence | as-written member | corrected member |
|---|---|---|---|---|---|---|
| enrollment-service/src/main/java/com/cyd/enrollmentservice/service/EnrollmentService.java:85-91 | The seat write sends `{"enrolled": n}` with no code. `updateCourse` (CourseService.java:105-108) refuses any body whose code is not the stored one, and a missing code never matches. Even a body that passed that check would not set `enrolled`, because lines 119-122 never copy it. So the catalog counter never moves, and the capacity check (lines 69-73) only ever sees the creation-time value. | A course with capacity 1 and counter 0, two registered students, catalog reachable: both enrollments succeed, and two seats are held against one. | The counter follows enrollments and drops, so a course at capacity refuses the next student | high; not executed | Deployment.OverbookingAsWritten | Deployment.FixedEnrollKeepsSeatsAccounted |

`Deployment.FixedDropKeepsSeatsAccounted`, `Deployment.FixedRefusesFullCourse` and `Deployment.NoOverbookingFixed` complete the corrected half. Together they show that, with the intended write, held seats never exceed capacity across any sequence of enrolls and drops.

## Left out

- Controllers, JSON and the `Result` response wrapper. `Kind()` records the exception's class, not the status code. The handlers that answer differently from 400/404 are listed below.
- Enrollments.DropCourse: the drop handler (EnrollmentController.java:39-46) catches only `RuntimeException`. It answers 404 for every failure, including `AlreadyDropped`, whose `Kind()` is `Conflict`.
- Catalog.CreateCourse: the create handler (CourseController.java:53-60) catches only `IllegalArgumentException`. `CodeMissing` therefore ends as an uncaught 500, not the 404 its `Kind()` suggests.
- Catalog.GetCoursesByPage: the catalog service has no global exception handler and the page route (CourseController.java:24-28) catches nothing, so both `BadPageRequest` and `PageOffsetTooLarge` end as a 500. The student listings do not have this gap: their route has no try/catch, but the enrollment service's global handler answers 400 and 404 as `Kind()` says.
- EnrollmentStore.JpqlMatchesDerivedQuery: assumes the JPQL query's named parameters bind. EnrollmentRepository.java:6 imports MyBatis's `@Param`, which Spring Data ignores, so `:courseId` and `:status` bind by parameter name only when the code is compiled with `-parameters`. Otherwise the query fails at startup. The model treats the query as bound.
- Null object fields in a course body. The model's `CourseBody` always carries a title, an instructor and a schedule, and the program handles a null one in ways the model does not follow. A missing schedule throws a `NullPointerException` at CourseService.java:28, which the create handler does not catch (500). A missing instructor on a conflicting body throws while the message is built at CourseService.java:39, where the model returns `TimeConflict`; that is a 500 on create and a 404 on update. A null title fails the not-null column (Course.java:37) on save.
- Bean validation (`@NotBlank`, `@Positive`, `@NotNull`). It runs in the controllers, so it appears as hypotheses of the invariant lemmas (`ValidBody`, `ValidRequest`). The `@Email` format check is not modelled.
- Null `Integer` fields. The exception is a null `enrolled` on course create, which becomes 0. A null capacity, grade or `enrolled` in a catalog reply would be a `NullPointerException` and is not modelled.
- `findByTitleContainingIgnoreCase` (CourseRepository.java:50). Case-insensitive matching needs Unicode case folding, which is not modelled.
- Pass-throughs to repository functions that are modelled: `findAllEnrollments` and `existsByStudentId` in the enrollment service, `findStudentById` and `findStudentByStudentId`, and `findCourseById` and `findCourseByCode`. The inherited `findAll`, `save` and `deleteById` are also in this group.
- The commented-out service methods (course-and-status listing, active count), and the controller routes that call them.
- Concurrency and transactions. Each operation is one whole-state step, so the race between the capacity check and the insert is not modelled.
- Generated ids and timestamps. The fresh id and the clock value are parameters. A caller-supplied id that would make JPA merge into an existing record is not modelled.
- DB collation. Text is ordered by character code.
- A 5xx reply and a transport failure during enroll propagate as one untranslated exception. Both are `Enrollments.CatalogUnavailable`.
- Deployment.SystemEnrollFixed: the catalog is reachable for both the read and the write of one request, or for neither. With the intended write, a write that fails after a successful read would leave the counter behind the held seats. That case is not modelled.
