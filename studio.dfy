/**
 * The studio's tables as one object whose handlers update them in place:
 * the Course table, the ids of the User table and the CourseUser table.
 * Each handler checks existence, then inserts, updates or deletes one row
 * (or, for a course deletion, the course and its enrollments), and leaves
 * exactly the tables the matching function of Ledger describes.
 */
module Studio {
  import opened Records
  import opened Ledger

  class FitnessStudio {
    var courses: map<CourseId, Course>
    var users: set<UserId>
    var enrollments: map<RowId, Enrollment>
    var nextRowId: RowId

    /** The tables as a value. */
    ghost function Snapshot(): Tables
      reads this
    {
      Tables(courses, users, enrollments, nextRowId)
    }

    ghost predicate Valid()
      reads this
    {
      Consistent(Snapshot())
    }

    /** Empty Course and CourseUser tables beside the given user ids. */
    constructor (userIds: set<UserId>)
      ensures Valid()
      ensures courses == map[] && users == userIds && enrollments == map[]
    {
      courses := map[];
      users := userIds;
      enrollments := map[];
      nextRowId := 0;
    }

    /** get_course_info: the course row under id c. */
    method GetCourseInfo(c: CourseId) returns (r: Result<Course>)
      ensures r.Ok? <==> c in courses
      ensures r.Ok? ==> r.value == courses[c]
      ensures r.Err? ==> r.error == InvalidCourseId(c)
    {
      if c !in courses {
        return Err(InvalidCourseId(c));
      }
      return Ok(courses[c]);
    }

    /** add_course of the bookings router. */
    method Book(c: CourseId, u: UserId) returns (r: Result<RowId>)
      requires Valid()
      modifies this
      ensures Valid()
      ensures Step(Snapshot(), r) == Ledger.Book(old(Snapshot()), c, u)
    {
      if c !in courses {
        return Err(InvalidCourseId(c));
      }
      if u !in users {
        return Err(InvalidUserId(u));
      }
      var k: RowId;
      match FindRow(enrollments, c, u) {
        case Some(found) =>
          k := found;
        case None =>
          k := nextRowId;
          enrollments := enrollments[k := Enrollment(c, u, 0)];
          nextRowId := nextRowId + 1;
      }
      var e := enrollments[k];
      if e.bookedSlot >= courses[c].slot {
        return Err(SlotLimitExceeded(c));
      }
      enrollments := enrollments[k := e.(bookedSlot := e.bookedSlot + 1)];
      return Ok(k);
    }

    /** remove_course of the bookings router. */
    method Release(c: CourseId, u: UserId) returns (r: Result<Released>)
      requires Valid()
      modifies this
      ensures Valid()
      ensures Step(Snapshot(), r) == Ledger.Release(old(Snapshot()), c, u)
    {
      if c !in courses {
        return Err(InvalidCourseId(c));
      }
      if u !in users {
        return Err(InvalidUserId(u));
      }
      var found := FindRow(enrollments, c, u);
      if found.None? {
        return Err(NoEnrollment(c, u));
      }
      var k := found.value;
      var e := enrollments[k];
      if e.bookedSlot == 0 {
        enrollments := enrollments - {k};
        return Ok(Deleted(k));
      }
      enrollments := enrollments[k := e.(bookedSlot := e.bookedSlot - 1)];
      return Ok(Decremented(k, e.bookedSlot - 1));
    }

    /** update_slot_count. */
    method UpdateSlot(c: CourseId, slot: int) returns (r: Result<()>)
      requires Valid()
      modifies this
      ensures Valid()
      ensures Step(Snapshot(), r) == Ledger.UpdateSlot(old(Snapshot()), c, slot)
    {
      if c !in courses {
        return Err(InvalidCourseId(c));
      }
      courses := courses[c := courses[c].(slot := slot)];
      return Ok(());
    }

    /** update_course_timing. */
    method UpdateTiming(c: CourseId, timing: Timing) returns (r: Result<()>)
      requires Valid()
      modifies this
      ensures Valid()
      ensures Step(Snapshot(), r) == Ledger.UpdateTiming(old(Snapshot()), c, timing)
    {
      if c !in courses {
        return Err(InvalidCourseId(c));
      }
      courses := courses[c := courses[c].(timing := timing)];
      return Ok(());
    }

    /** remove_course of the courses router, with the cascade to enrollments. */
    method RemoveCourse(c: CourseId)
      requires Valid()
      modifies this
      ensures Valid()
      ensures Snapshot() == Ledger.RemoveCourse(old(Snapshot()), c)
    {
      enrollments := map k | k in enrollments && enrollments[k].courseId != c :: enrollments[k];
      courses := courses - {c};
    }

    /** register_course. */
    method RegisterCourse(c: CourseId, course: Course) returns (r: Result<CourseId>)
      requires Valid()
      modifies this
      ensures Valid()
      ensures Step(Snapshot(), r) == Ledger.RegisterCourse(old(Snapshot()), c, course)
    {
      if c in courses {
        return Err(DuplicateCourseId(c));
      }
      courses := courses[c := course];
      return Ok(c);
    }
  }
}
