/**
 * The slot-booking ledger as values: the Course table, the set of known
 * user ids and the CourseUser (enrollment) table, and one function per
 * handler that gives the tables after the call together with its result.
 * The class in Studio updates its fields exactly as these functions say.
 */
module Ledger {
  import opened Records

  datatype Tables = Tables(
    courses: map<CourseId, Course>,
    users: set<UserId>,
    rows: map<RowId, Enrollment>,
    nextRowId: RowId)

  /** The tables after a call and what the call returned. */
  datatype Step<T> = Step(after: Tables, result: Result<T>)

  /** What a successful release did to the enrollment row. */
  datatype Released = Decremented(row: RowId, bookedSlot: int) | Deleted(row: RowId)

  predicate Matches(e: Enrollment, c: CourseId, u: UserId) {
    e.courseId == c && e.userId == u
  }

  /** At most one enrollment row per (course, user) pair. */
  ghost predicate UniquePairs(rows: map<RowId, Enrollment>) {
    forall k, k' | k in rows && k' in rows && Matches(rows[k'], rows[k].courseId, rows[k].userId) :: k == k'
  }

  /**
   * The invariant of the tables: enrollment rows refer to existing courses
   * and users (the foreign keys), counters are never negative, row ids are
   * below the next id to hand out, and a pair has at most one row.
   */
  ghost predicate Consistent(t: Tables) {
    UniquePairs(t.rows) &&
    forall k | k in t.rows ::
      k < t.nextRowId && t.rows[k].courseId in t.courses && t.rows[k].userId in t.users
      && 0 <= t.rows[k].bookedSlot
  }

  /** The two enrollment tables differ at most in the rows of the pair (c, u). */
  ghost predicate OnlyPairChanged(rows: map<RowId, Enrollment>, rows': map<RowId, Enrollment>, c: CourseId, u: UserId) {
    (forall k | k in rows && !Matches(rows[k], c, u) :: k in rows' && rows'[k] == rows[k])
    && (forall k | k in rows' && !Matches(rows'[k], c, u) :: k in rows && rows[k] == rows'[k])
  }

  /** Whether the pair (c, u) has an enrollment row. */
  predicate Enrolled(rows: map<RowId, Enrollment>, c: CourseId, u: UserId) {
    exists k | k in rows :: Matches(rows[k], c, u)
  }

  /** The select of the row whose course_id and user_id are c and u. */
  function FindRow(rows: map<RowId, Enrollment>, c: CourseId, u: UserId): (r: Option<RowId>)
    requires UniquePairs(rows)
    ensures r.Some? <==> Enrolled(rows, c, u)
    ensures r.Some? ==> r.value in rows && Matches(rows[r.value], c, u)
    ensures forall k | k in rows && Matches(rows[k], c, u) :: r == Some(k)
  {
    if exists k | k in rows :: Matches(rows[k], c, u) then
      var k :| k in rows && Matches(rows[k], c, u);
      Some(k)
    else
      None
  }

  /** How many slots the pair (c, u) holds: its row's counter, or 0 without a row. */
  function Booked(rows: map<RowId, Enrollment>, c: CourseId, u: UserId): (r: int)
    requires UniquePairs(rows)
    ensures forall k | k in rows && Matches(rows[k], c, u) :: r == rows[k].bookedSlot
    ensures !Enrolled(rows, c, u) ==> r == 0
  {
    match FindRow(rows, c, u)
    case Some(k) => rows[k].bookedSlot
    case None => 0
  }

  /** The available_slot column of the listings: capacity less the row's counter. */
  function AvailableSlot(course: Course, e: Enrollment): (r: int)
    ensures r > 0 <==> e.bookedSlot < course.slot
    ensures r + e.bookedSlot == course.slot
  {
    course.slot - e.bookedSlot
  }

  /**
   * Finds the enrollment row of (c, u), inserting one with a zero counter
   * under a fresh id when there is none.
   */
  function Enroll(t: Tables, c: CourseId, u: UserId): (r: (Tables, RowId))
    requires Consistent(t) && c in t.courses && u in t.users
    ensures Consistent(r.0)
    ensures r.0.courses == t.courses && r.0.users == t.users
    ensures r.1 in r.0.rows && Matches(r.0.rows[r.1], c, u)
    ensures r.0.rows[r.1].bookedSlot == Booked(t.rows, c, u)
    ensures r.0.rows.Keys == t.rows.Keys + {r.1}
    ensures forall k | k in t.rows :: r.0.rows[k] == t.rows[k]
  {
    match FindRow(t.rows, c, u)
    case Some(k) => (t, k)
    case None =>
      var k := t.nextRowId;
      var rows := t.rows[k := Enrollment(c, u, 0)];
      assert UniquePairs(rows);
      (t.(rows := rows, nextRowId := k + 1), k)
  }

  /**
   * add_course: book one more slot of course c for user u. Unknown ids are
   * refused first; the pair's row is found or created with a zero counter;
   * a counter already at the course's slot is refused with
   * SlotLimitExceeded; otherwise the counter goes up by one.
   */
  function Book(t: Tables, c: CourseId, u: UserId): (r: Step<RowId>)
    requires Consistent(t)
    ensures Consistent(r.after)
    ensures r.after.courses == t.courses && r.after.users == t.users
    ensures c !in t.courses ==> r == Step(t, Err(InvalidCourseId(c)))
    ensures c in t.courses && u !in t.users ==> r == Step(t, Err(InvalidUserId(u)))
    ensures r.result.Ok? <==> c in t.courses && u in t.users && Booked(t.rows, c, u) < t.courses[c].slot
    ensures c in t.courses && u in t.users && r.result.Err? ==>
      r.result.error == SlotLimitExceeded(c) && Booked(r.after.rows, c, u) == Booked(t.rows, c, u)
    ensures r.result.Ok? ==>
      r.result.value in r.after.rows && Matches(r.after.rows[r.result.value], c, u)
      && Booked(r.after.rows, c, u) == Booked(t.rows, c, u) + 1 <= t.courses[c].slot
    ensures OnlyPairChanged(t.rows, r.after.rows, c, u)
    ensures t.rows.Keys <= r.after.rows.Keys
    ensures c in t.courses && u in t.users ==> Enrolled(r.after.rows, c, u)
  {
    if c !in t.courses then Step(t, Err(InvalidCourseId(c)))
    else if u !in t.users then Step(t, Err(InvalidUserId(u)))
    else
      var (t1, k) := Enroll(t, c, u);
      var e := t1.rows[k];
      if e.bookedSlot >= t.courses[c].slot then
        Step(t1, Err(SlotLimitExceeded(c)))
      else
        var rows := t1.rows[k := e.(bookedSlot := e.bookedSlot + 1)];
        assert FindRow(rows, c, u) == Some(k);
        Step(t1.(rows := rows), Ok(k))
  }

  /**
   * remove_course of the bookings router: give back one slot of course c
   * held by user u. Unknown ids are refused; a pair without a row fails
   * with NoEnrollment; a row whose counter is already 0 is deleted;
   * otherwise its counter goes down by one.
   */
  function Release(t: Tables, c: CourseId, u: UserId): (r: Step<Released>)
    requires Consistent(t)
    ensures Consistent(r.after)
    ensures r.after.courses == t.courses && r.after.users == t.users
    ensures c !in t.courses ==> r == Step(t, Err(InvalidCourseId(c)))
    ensures c in t.courses && u !in t.users ==> r == Step(t, Err(InvalidUserId(u)))
    ensures c in t.courses && u in t.users && !Enrolled(t.rows, c, u) ==> r == Step(t, Err(NoEnrollment(c, u)))
    ensures r.result.Ok? <==> c in t.courses && u in t.users && Enrolled(t.rows, c, u)
    ensures r.result.Ok? && Booked(t.rows, c, u) == 0 ==>
      r.result.value == Deleted(FindRow(t.rows, c, u).value) && !Enrolled(r.after.rows, c, u)
    ensures r.result.Ok? && Booked(t.rows, c, u) > 0 ==>
      r.result.value == Decremented(FindRow(t.rows, c, u).value, Booked(t.rows, c, u) - 1)
      && FindRow(r.after.rows, c, u) == FindRow(t.rows, c, u)
      && Booked(r.after.rows, c, u) == Booked(t.rows, c, u) - 1
    ensures OnlyPairChanged(t.rows, r.after.rows, c, u)
    ensures forall k | k in r.after.rows ::
      k in t.rows && r.after.rows[k].courseId == t.rows[k].courseId
      && r.after.rows[k].userId == t.rows[k].userId && r.after.rows[k].bookedSlot <= t.rows[k].bookedSlot
    ensures r.after.nextRowId == t.nextRowId
  {
    if c !in t.courses then Step(t, Err(InvalidCourseId(c)))
    else if u !in t.users then Step(t, Err(InvalidUserId(u)))
    else
      match FindRow(t.rows, c, u)
      case None => Step(t, Err(NoEnrollment(c, u)))
      case Some(k) =>
        var e := t.rows[k];
        if e.bookedSlot == 0 then
          Step(t.(rows := t.rows - {k}), Ok(Deleted(k)))
        else
          var rows := t.rows[k := e.(bookedSlot := e.bookedSlot - 1)];
          assert FindRow(rows, c, u) == Some(k);
          Step(t.(rows := rows), Ok(Decremented(k, e.bookedSlot - 1)))
  }

  /**
   * update_slot_count: set the capacity of course c, whatever the course's
   * enrollments already hold. An unknown id fails and changes nothing.
   */
  function UpdateSlot(t: Tables, c: CourseId, slot: int): (r: Step<()>)
    requires Consistent(t)
    ensures Consistent(r.after)
    ensures c !in t.courses ==> r == Step(t, Err(InvalidCourseId(c)))
    ensures c in t.courses ==> r.result.Ok?
    ensures r.after.courses.Keys == t.courses.Keys
    ensures c in t.courses ==> r.after.courses[c] == t.courses[c].(slot := slot)
    ensures forall c' | c' in t.courses && c' != c :: r.after.courses[c'] == t.courses[c']
    ensures r.after.rows == t.rows && r.after.users == t.users && r.after.nextRowId == t.nextRowId
  {
    if c !in t.courses then Step(t, Err(InvalidCourseId(c)))
    else Step(t.(courses := t.courses[c := t.courses[c].(slot := slot)]), Ok(()))
  }

  /**
   * update_course_timing: set the timing of course c. An unknown id fails
   * and changes nothing.
   */
  function UpdateTiming(t: Tables, c: CourseId, timing: Timing): (r: Step<()>)
    requires Consistent(t)
    ensures Consistent(r.after)
    ensures c !in t.courses ==> r == Step(t, Err(InvalidCourseId(c)))
    ensures c in t.courses ==> r.result.Ok?
    ensures r.after.courses.Keys == t.courses.Keys
    ensures c in t.courses ==> r.after.courses[c] == t.courses[c].(timing := timing)
    ensures forall c' | c' in t.courses && c' != c :: r.after.courses[c'] == t.courses[c']
    ensures r.after.rows == t.rows && r.after.users == t.users && r.after.nextRowId == t.nextRowId
  {
    if c !in t.courses then Step(t, Err(InvalidCourseId(c)))
    else Step(t.(courses := t.courses[c := t.courses[c].(timing := timing)]), Ok(()))
  }

  /**
   * remove_course of the courses router: delete course c; the foreign key's
   * ON DELETE CASCADE deletes every enrollment row of c with it. Deleting an
   * unknown id deletes nothing and is not an error.
   */
  function RemoveCourse(t: Tables, c: CourseId): (r: Tables)
    requires Consistent(t)
    ensures Consistent(r)
    ensures r.courses.Keys == t.courses.Keys - {c}
    ensures forall c' | c' in r.courses :: r.courses[c'] == t.courses[c']
    ensures forall k :: k in r.rows <==> k in t.rows && t.rows[k].courseId != c
    ensures forall k | k in r.rows :: r.rows[k] == t.rows[k]
    ensures r.users == t.users && r.nextRowId == t.nextRowId
  {
    t.(courses := t.courses - {c},
       rows := map k | k in t.rows && t.rows[k].courseId != c :: t.rows[k])
  }

  /**
   * register_course: insert a course under the id the caller gives. An id
   * already in use violates the primary key and changes nothing.
   */
  function RegisterCourse(t: Tables, c: CourseId, course: Course): (r: Step<CourseId>)
    requires Consistent(t)
    ensures Consistent(r.after)
    ensures c in t.courses ==> r == Step(t, Err(DuplicateCourseId(c)))
    ensures c !in t.courses ==> r.result == Ok(c)
    ensures r.after.courses.Keys == t.courses.Keys + {c}
    ensures c in r.after.courses && (c !in t.courses ==> r.after.courses[c] == course)
    ensures forall c' | c' in t.courses :: r.after.courses[c'] == t.courses[c']
    ensures r.after.rows == t.rows && r.after.users == t.users && r.after.nextRowId == t.nextRowId
  {
    if c in t.courses then Step(t, Err(DuplicateCourseId(c)))
    else Step(t.(courses := t.courses[c := course]), Ok(c))
  }
}
