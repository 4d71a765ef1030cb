/** The schedule slot embedded in a course and the overlap test the course
    repository runs against it. Day and times are free text: the test compares
    them as strings, with no calendar or clock semantics. */
module Schedule {
  import opened Strings

  datatype ScheduleSlot = ScheduleSlot(
    dayOfWeek: string,
    startTime: string,
    endTime: string,
    expectedAttendance: int)

  /** The WHERE clause of `findConflictingCourses(day, start, end)` applied to
      a stored slot `c`: same day, and both time comparisons strict. */
  predicate MatchesConflictQuery(c: ScheduleSlot, day: string, start: string, end: string) {
    c.dayOfWeek == day && Less(c.startTime, end) && Less(start, c.endTime)
  }

  /** A proposed slot `p` is reported against a stored slot `c`. */
  predicate Overlaps(p: ScheduleSlot, c: ScheduleSlot) {
    MatchesConflictQuery(c, p.dayOfWeek, p.startTime, p.endTime)
  }

  /** Which slot is stored and which is proposed does not matter. */
  lemma OverlapsSymmetric(a: ScheduleSlot, b: ScheduleSlot)
    ensures Overlaps(a, b) <==> Overlaps(b, a)
  {
  }

  /** A slot that ends no later than the other starts is never reported; in
      particular slots that only touch (one ends when the other starts) do not
      conflict, because both comparisons are strict. */
  lemma SequentialSlotsDoNotOverlap(a: ScheduleSlot, b: ScheduleSlot)
    requires LessEq(a.endTime, b.startTime)
    ensures !Overlaps(a, b) && !Overlaps(b, a)
  {
    LessIrreflexive(a.endTime);
    if Less(a.endTime, b.startTime) {
      LessAsymmetric(a.endTime, b.startTime);
    }
  }

  /** Re-submitting a slot matches itself exactly when its start string sorts
      before its end string; a slot whose times are reversed or equal is not
      even reported against itself. */
  lemma SelfOverlap(a: ScheduleSlot)
    ensures Overlaps(a, a) <==> Less(a.startTime, a.endTime)
  {
  }

  /** Times are compared as text, so unpadded clock times are misordered:
      "9:00"-"11:00" and "10:00"-"10:30" on the same day are not reported,
      although the second lies inside the first on a clock. */
  lemma UnpaddedTimesMissAnOverlap()
    ensures !Overlaps(ScheduleSlot("MONDAY", "9:00", "11:00", 30),
                      ScheduleSlot("MONDAY", "10:00", "10:30", 30))
  {
    assert !Less("9:00", "10:30");
  }
}
