/**
 * Row shapes of the Course and CourseUser tables and the errors the
 * booking and course handlers raise.
 */
module Records {

  type CourseId = int
  type UserId = int
  type RowId = int

  /** A time of day. No handler inspects it; it is only stored and replaced. */
  datatype Timing = Timing(hour: int, minute: int, second: int)

  /** A row of the Course table, without its id (the id is the table's key). */
  datatype Course = Course(name: string, description: string, slot: int, timing: Timing)

  /** A row of the CourseUser table, without its id (the id is the table's key). */
  datatype Enrollment = Enrollment(courseId: CourseId, userId: UserId, bookedSlot: int)

  /**
   * The failures of the handlers. The first two are the ValueErrors the
   * service answers with status 400, SlotLimitExceeded is the exception it
   * answers with status 417, NoEnrollment is a release for a pair with no
   * enrollment row, DuplicateCourseId an insert whose primary key is taken.
   */
  datatype Error =
    | InvalidCourseId(courseId: CourseId)
    | InvalidUserId(userId: UserId)
    | SlotLimitExceeded(courseId: CourseId)
    | NoEnrollment(courseId: CourseId, userId: UserId)
    | DuplicateCourseId(courseId: CourseId)

  datatype Result<T> = Ok(value: T) | Err(error: Error)

  datatype Option<T> = None | Some(value: T)
}
