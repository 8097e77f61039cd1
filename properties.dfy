/**
 * What the handlers guarantee about the tables over one call and over any
 * sequence of calls, and what they do not guarantee.
 */
module LedgerProperties {
  import opened Records
  import opened Ledger

  /**
   * The bound the capacity guard gives: every enrollment that holds slots
   * holds at most its course's slot count. (Rows with a zero counter are
   * left out: a row is created with 0 before the guard runs, and nothing
   * stops a course from having a slot count of 0 or less.)
   */
  ghost predicate WithinCapacity(t: Tables) {
    forall k | k in t.rows :: RowWithin(t.courses, t.rows[k])
  }

  ghost predicate RowWithin(courses: map<CourseId, Course>, e: Enrollment) {
    e.courseId in courses && 0 < e.bookedSlot ==> e.bookedSlot <= courses[e.courseId].slot
  }

  /** With one row per pair, a row's counter is what its pair holds. */
  lemma BookedIsRowCounter(rows: map<RowId, Enrollment>, k: RowId)
    requires UniquePairs(rows) && k in rows
    ensures Booked(rows, rows[k].courseId, rows[k].userId) == rows[k].bookedSlot
    ensures Enrolled(rows, rows[k].courseId, rows[k].userId)
  {
    assert Matches(rows[k], rows[k].courseId, rows[k].userId);
  }

  /**
   * Two enrollment tables that have the same rows for the pair (c, u) give
   * the pair the same counter.
   */
  lemma BookedDependsOnPairRows(rows: map<RowId, Enrollment>, rows': map<RowId, Enrollment>, c: CourseId, u: UserId)
    requires UniquePairs(rows) && UniquePairs(rows')
    requires forall k | k in rows && Matches(rows[k], c, u) :: k in rows' && rows'[k] == rows[k]
    requires forall k | k in rows' && Matches(rows'[k], c, u) :: k in rows && rows[k] == rows'[k]
    ensures Enrolled(rows', c, u) == Enrolled(rows, c, u)
    ensures Booked(rows', c, u) == Booked(rows, c, u)
  {
    match FindRow(rows, c, u)
    case Some(k) =>
      assert FindRow(rows', c, u) == Some(k);
    case None =>
  }

  /** A booking for (c, u) leaves the counter of every other pair as it was. */
  lemma BookLeavesOtherPairs(t: Tables, c: CourseId, u: UserId, c': CourseId, u': UserId)
    requires Consistent(t) && (c' != c || u' != u)
    ensures Enrolled(Book(t, c, u).after.rows, c', u') == Enrolled(t.rows, c', u')
    ensures Booked(Book(t, c, u).after.rows, c', u') == Booked(t.rows, c', u')
  {
    var after := Book(t, c, u).after;
    BookedDependsOnPairRows(t.rows, after.rows, c', u');
  }

  /** A release for (c, u) leaves the counter of every other pair as it was. */
  lemma ReleaseLeavesOtherPairs(t: Tables, c: CourseId, u: UserId, c': CourseId, u': UserId)
    requires Consistent(t) && (c' != c || u' != u)
    ensures Enrolled(Release(t, c, u).after.rows, c', u') == Enrolled(t.rows, c', u')
    ensures Booked(Release(t, c, u).after.rows, c', u') == Booked(t.rows, c', u')
  {
    var after := Release(t, c, u).after;
    BookedDependsOnPairRows(t.rows, after.rows, c', u');
  }

  /**
   * Booking a slot and then releasing it for the same pair gives the slot
   * back: the pair holds what it held before and every other row is as it was.
   */
  lemma BookThenRelease(t: Tables, c: CourseId, u: UserId)
    requires Consistent(t) && Book(t, c, u).result.Ok?
    ensures var mid := Book(t, c, u).after;
      Release(mid, c, u).result.Ok?
      && Booked(Release(mid, c, u).after.rows, c, u) == Booked(t.rows, c, u)
      && Enrolled(Release(mid, c, u).after.rows, c, u)
    ensures forall k | k in t.rows && !Matches(t.rows[k], c, u) ::
      k in Release(Book(t, c, u).after, c, u).after.rows
      && Release(Book(t, c, u).after, c, u).after.rows[k] == t.rows[k]
  {
  }

  /**
   * Releases delete late: a pair holding one slot keeps its row, now at 0,
   * after the first release; the second release deletes the row; a third
   * fails with NoEnrollment and changes nothing.
   */
  lemma DrainEnrollment(t: Tables, c: CourseId, u: UserId)
    requires Consistent(t) && c in t.courses && u in t.users
    requires Enrolled(t.rows, c, u) && Booked(t.rows, c, u) == 1
    ensures var t1 := Release(t, c, u).after;
      Release(t, c, u).result == Ok(Decremented(FindRow(t.rows, c, u).value, 0))
      && Enrolled(t1.rows, c, u) && Booked(t1.rows, c, u) == 0
      && Release(t1, c, u).result == Ok(Deleted(FindRow(t.rows, c, u).value))
      && !Enrolled(Release(t1, c, u).after.rows, c, u)
      && Release(Release(t1, c, u).after, c, u)
         == Step(Release(t1, c, u).after, Err(NoEnrollment(c, u)))
  {
  }

  /**
   * The guard bounds each row, not the course: two users who each book the
   * last slot of a one-slot course both succeed, and together they hold two
   * slots of it.
   */
  lemma PerRowGuardAllowsOverbooking()
    ensures var t := Tables(map[1 := Course("yoga", "morning class", 1, Timing(7, 0, 0))], {10, 20}, map[], 0);
      var first := Book(t, 1, 10);
      var second := Book(first.after, 1, 20);
      first.result.Ok? && second.result.Ok?
      && Booked(second.after.rows, 1, 10) + Booked(second.after.rows, 1, 20) == 2
      && second.after.courses[1].slot == 1
  {
    var t := Tables(map[1 := Course("yoga", "morning class", 1, Timing(7, 0, 0))], {10, 20}, map[], 0);
    assert Consistent(t);
    assert !Enrolled(t.rows, 1, 10) && !Enrolled(t.rows, 1, 20);
    var first := Book(t, 1, 10);
    BookLeavesOtherPairs(t, 1, 10, 1, 20);
    var second := Book(first.after, 1, 20);
    BookLeavesOtherPairs(first.after, 1, 20, 1, 10);
  }

  /** Booking keeps every slot-holding row within its course's capacity. */
  lemma BookKeepsBound(t: Tables, c: CourseId, u: UserId)
    requires Consistent(t) && WithinCapacity(t)
    ensures WithinCapacity(Book(t, c, u).after)
  {
    var r := Book(t, c, u);
    forall k | k in r.after.rows
      ensures RowWithin(r.after.courses, r.after.rows[k])
    {
      if Matches(r.after.rows[k], c, u) {
        BookedIsRowCounter(r.after.rows, k);
        if r.result.Err? && 0 < r.after.rows[k].bookedSlot {
          var j := FindRow(t.rows, c, u).value;
          BookedIsRowCounter(t.rows, j);
        }
      } else {
        assert k in t.rows && t.rows[k] == r.after.rows[k];
      }
    }
  }

  /** Releasing keeps every slot-holding row within its course's capacity. */
  lemma ReleaseKeepsBound(t: Tables, c: CourseId, u: UserId)
    requires Consistent(t) && WithinCapacity(t)
    ensures WithinCapacity(Release(t, c, u).after)
  {
    var r := Release(t, c, u);
    forall k | k in r.after.rows
      ensures RowWithin(r.after.courses, r.after.rows[k])
    {
      assert k in t.rows;
    }
  }

  /**
   * update_slot_count does not look at the bookings: the bound holds after
   * it exactly when no enrollment of the course holds more than the new
   * slot count, so lowering the capacity below a counter breaks it.
   */
  lemma UpdateSlotBound(t: Tables, c: CourseId, slot: int)
    requires Consistent(t) && WithinCapacity(t) && c in t.courses
    ensures UpdateSlot(t, c, slot).result.Ok?
    ensures WithinCapacity(UpdateSlot(t, c, slot).after)
      <==> forall k | k in t.rows && t.rows[k].courseId == c :: t.rows[k].bookedSlot <= slot || t.rows[k].bookedSlot == 0
  {
    var after := UpdateSlot(t, c, slot).after;
    if !WithinCapacity(after) {
      var k :| k in after.rows && !RowWithin(after.courses, after.rows[k]);
      assert t.rows[k].courseId == c;
    }
  }

  /** Deleting a course ends every enrollment in it; booking it again fails. */
  lemma RemoveCourseEndsEnrollments(t: Tables, c: CourseId, u: UserId)
    requires Consistent(t)
    ensures !Enrolled(RemoveCourse(t, c).rows, c, u)
    ensures Book(RemoveCourse(t, c), c, u) == Step(RemoveCourse(t, c), Err(InvalidCourseId(c)))
    ensures Release(RemoveCourse(t, c), c, u) == Step(RemoveCourse(t, c), Err(InvalidCourseId(c)))
  {
  }

  /**
   * The available_slot of the listings tracks the bookings: a booking on an
   * enrolled pair succeeds exactly when its row shows a slot available, and
   * takes one away; a release of a positive counter gives one back.
   */
  lemma AvailableSlotAccounting(t: Tables, c: CourseId, u: UserId)
    requires Consistent(t) && c in t.courses && u in t.users && Enrolled(t.rows, c, u)
    ensures var k := FindRow(t.rows, c, u).value;
      var booked := Book(t, c, u);
      (booked.result.Ok? <==> AvailableSlot(t.courses[c], t.rows[k]) > 0)
      && (booked.result.Ok? ==>
            booked.result.value == k
            && AvailableSlot(booked.after.courses[c], booked.after.rows[k]) == AvailableSlot(t.courses[c], t.rows[k]) - 1 >= 0)
    ensures var k := FindRow(t.rows, c, u).value;
      var released := Release(t, c, u);
      t.rows[k].bookedSlot > 0 ==>
        (AvailableSlot(released.after.courses[c], released.after.rows[k]) == AvailableSlot(t.courses[c], t.rows[k]) + 1)
  {
    var k := FindRow(t.rows, c, u).value;
    var booked := Book(t, c, u);
    if booked.result.Ok? {
      var j := booked.result.value;
      assert FindRow(booked.after.rows, c, u) == Some(j);
      assert j in t.rows;
    }
  }

  /** One request to the booking or course handlers. */
  datatype Request =
    | BookRequest(c: CourseId, u: UserId)
    | ReleaseRequest(c: CourseId, u: UserId)
    | UpdateSlotRequest(c: CourseId, slot: int)
    | UpdateTimingRequest(c: CourseId, timing: Timing)
    | RemoveCourseRequest(c: CourseId)
    | RegisterCourseRequest(c: CourseId, course: Course)

  function Apply(t: Tables, req: Request): (r: Tables)
    requires Consistent(t)
    ensures Consistent(r)
  {
    match req
    case BookRequest(c, u) => Book(t, c, u).after
    case ReleaseRequest(c, u) => Release(t, c, u).after
    case UpdateSlotRequest(c, slot) => UpdateSlot(t, c, slot).after
    case UpdateTimingRequest(c, timing) => UpdateTiming(t, c, timing).after
    case RemoveCourseRequest(c) => RemoveCourse(t, c)
    case RegisterCourseRequest(c, course) => RegisterCourse(t, c, course).after
  }

  /** The tables after handling the requests one after another. */
  function Run(t: Tables, reqs: seq<Request>): (r: Tables)
    requires Consistent(t)
    ensures Consistent(r)
    decreases |reqs|
  {
    if reqs == [] then t else Run(Apply(t, reqs[0]), reqs[1..])
  }

  /** A timing change keeps the per-row bound: no counter and no slot count changes. */
  lemma UpdateTimingKeepsBound(t: Tables, c: CourseId, timing: Timing)
    requires Consistent(t) && WithinCapacity(t)
    ensures WithinCapacity(UpdateTiming(t, c, timing).after)
  {
    var after := UpdateTiming(t, c, timing).after;
    forall k | k in after.rows
      ensures RowWithin(after.courses, after.rows[k])
    {
      assert after.rows[k] == t.rows[k];
    }
  }

  /** Deleting a course keeps the per-row bound on the rows that remain. */
  lemma RemoveCourseKeepsBound(t: Tables, c: CourseId)
    requires Consistent(t) && WithinCapacity(t)
    ensures WithinCapacity(RemoveCourse(t, c))
  {
    var after := RemoveCourse(t, c);
    forall k | k in after.rows
      ensures RowWithin(after.courses, after.rows[k])
    {
      assert after.rows[k] == t.rows[k];
    }
  }

  /** Registering a course keeps the per-row bound: existing courses keep their slot counts. */
  lemma RegisterCourseKeepsBound(t: Tables, c: CourseId, course: Course)
    requires Consistent(t) && WithinCapacity(t)
    ensures WithinCapacity(RegisterCourse(t, c, course).after)
  {
    var after := RegisterCourse(t, c, course).after;
    forall k | k in after.rows
      ensures RowWithin(after.courses, after.rows[k])
    {
      assert after.rows[k] == t.rows[k] && t.rows[k].courseId in t.courses;
    }
  }

  /** Every request except a capacity change keeps the per-row bound. */
  lemma ApplyKeepsBound(t: Tables, req: Request)
    requires Consistent(t) && WithinCapacity(t) && !req.UpdateSlotRequest?
    ensures WithinCapacity(Apply(t, req))
  {
    match req
    case BookRequest(c, u) => BookKeepsBound(t, c, u);
    case ReleaseRequest(c, u) => ReleaseKeepsBound(t, c, u);
    case UpdateTimingRequest(c, timing) => UpdateTimingKeepsBound(t, c, timing);
    case RemoveCourseRequest(c) => RemoveCourseKeepsBound(t, c);
    case RegisterCourseRequest(c, course) => RegisterCourseKeepsBound(t, c, course);
  }

  /**
   * From tables within the bound, any sequence of bookings, releases and
   * course edits that changes no capacity stays within the bound.
   */
  lemma {:induction false} RunKeepsBound(t: Tables, reqs: seq<Request>)
    requires Consistent(t) && WithinCapacity(t)
    requires forall i | 0 <= i < |reqs| :: !reqs[i].UpdateSlotRequest?
    ensures WithinCapacity(Run(t, reqs))
    decreases |reqs|
  {
    if reqs != [] {
      ApplyKeepsBound(t, reqs[0]);
      assert forall i | 0 <= i < |reqs[1..]| :: reqs[1..][i] == reqs[i + 1];
      RunKeepsBound(Apply(t, reqs[0]), reqs[1..]);
    }
  }

  /** n bookings of course c by user u, one after another, and how many succeeded. */
  function BookTimes(t: Tables, c: CourseId, u: UserId, n: nat): (r: (Tables, nat))
    requires Consistent(t)
    ensures Consistent(r.0) && r.1 <= n
    decreases n
  {
    if n == 0 then (t, 0)
    else
      var step := Book(t, c, u);
      var rest := BookTimes(step.after, c, u, n - 1);
      (rest.0, rest.1 + if step.result.Ok? then 1 else 0)
  }

  /**
   * No booking is lost and none too many is granted: of n bookings by one
   * user of an existing course, exactly as many succeed as the slot count
   * leaves room for above what the user already holds, and the user then
   * holds that many more.
   */
  lemma {:induction false} BookTimesGrantsRemainingSlots(t: Tables, c: CourseId, u: UserId, n: nat)
    requires Consistent(t) && c in t.courses && u in t.users
    ensures var room := if t.courses[c].slot - Booked(t.rows, c, u) > 0 then t.courses[c].slot - Booked(t.rows, c, u) else 0;
      var r := BookTimes(t, c, u, n);
      r.1 == (if n < room then n else room)
      && Booked(r.0.rows, c, u) == Booked(t.rows, c, u) + r.1
      && r.0.courses == t.courses
    decreases n
  {
    if n > 0 {
      var step := Book(t, c, u);
      BookTimesGrantsRemainingSlots(step.after, c, u, n - 1);
      assert BookTimes(t, c, u, n).1 == BookTimes(step.after, c, u, n - 1).1 + if step.result.Ok? then 1 else 0;
    }
  }
}
