# Fitness studio slot-booking ledger in Dafny

This project models the booking core of a FastAPI fitness-studio service. The
service keeps three tables:

- Course: id, name, description, `slot` (the capacity) and `timing`.
- User: only the set of user ids matters here.
- CourseUser: one enrollment row per (course, user) pair. It holds a
  `booked_slot` counter.

Two booking handlers change CourseUser:

- `add_course` books one slot.
- `remove_course` (bookings router) gives one slot back.

Five course handlers read or change the Course table:

- `get_course_info`
- `update_slot_count`
- `update_course_timing`
- `remove_course` (courses router). Its foreign key cascades the deletion to the course's enrollments.
- `register_course`

The project has four modules:

- `Records` (records.dfy): the row shapes and the error kinds.
  - `InvalidCourseId` and `InvalidUserId` are the ValueErrors, answered with status 400.
  - `SlotLimitExceeded` is the SlotLimitExceedException, answered with status 417.
  - `NoEnrollment` is a release for a pair that has no row.
  - `DuplicateCourseId` is a primary-key clash on insert.
- `Ledger` (ledger.dfy): the tables as a value, `Tables`.
  - One function per handler gives the tables after the call and its result.
  - Each function's contract states the guards, the new counter and the frame ("only this row changes").
  - Each function also keeps the table invariant `Consistent`: foreign keys hold, counters are never negative, and each pair has at most one row.
- `Studio` (studio.dfy): the class `FitnessStudio`.
  - Its fields are the course map, the user-id set, the enrollment map and the next row id.
  - Each handler that changes the tables is a method that updates these fields in place. Its contract says the new state and result are exactly those of the matching `Ledger` function.
  - `GetCourseInfo` is the exception: a read-only lookup with no `Ledger` counterpart. Its contract states its result directly against the course map.
- `LedgerProperties` (properties.dfy): lemmas about single calls and sequences of calls.
  - Frame lemmas, release-after-book and late deletion.
  - The per-row capacity bound and what breaks it.
  - A counterexample showing the course-wide total is not bounded.
  - "No lost bookings" for a run of bookings.

Where the model follows the evident intent rather than the letter of the code:

- Booking does not find an existing row in the code. `add_course` (fitness_studio/routers/classes.py:110-112) inserts a new CourseUser row on every call. It gives no `booked_slot`, and the column has no default. It then reads `booked_slot` from the insert's return value, which is the new row id, not a row.
  - The model finds the pair's row, or creates one with a zero counter, and then applies the guard at line 113.
  - The code inserts before it checks and does not roll back. The model keeps that order, so a refused first booking still leaves a zero-counter row.
- Releasing does not read a row in the code either. `remove_course` (bookings) runs its select of the pair's row through `database.execute` (fitness_studio/routers/classes.py:146-150), where every other read uses `database.fetch_one`. `execute` returns the driver's last-row id or row count, not a row, so reading `booked_slot` from it at line 151 fails for every release of a known course and user, whether or not the pair has a row.
  - The model reads the row as `fetch_one` would, which is what the code evidently intends, and then deletes it or lowers its counter as lines 151-160 say.
  - The code has no branch for a pair without a row. The model returns `NoEnrollment` and changes nothing.
- The guard compares one row's counter with the course's `slot`. Different users each get up to `slot` slots of the same course. The model states the per-row bound only (`WithinCapacity`). `PerRowGuardAllowsOverbooking` shows that the sum over a course can exceed its capacity. The per-row guard does not bound the sum of counters over a course.
- A row is deleted by the release *after* the one that brings its counter to 0, not when it reaches 0 (`DrainEnrollment`).
- `WithinCapacity` ignores zero-counter rows for two reasons. Rows are created at 0 before the guard runs. And `register_course` and `update_slot_count` accept any `slot`, including 0 or negative values.

## Model

| member | source | states |
|---|---|---|
| `Ledger.FindRow` | fitness_studio/routers/classes.py:146-150 | The lookup of the row whose course_id and user_id match: it returns some row exactly when the pair has one. The returned row matches, and it is the only matching row. |
| `Ledger.Enroll` | fitness_studio/routers/classes.py:110-112 | Find-or-create for the pair's row (evident intent). The result row matches the pair and carries the pair's current counter, 0 for a new row. At most one new key appears. Other rows, courses and users are unchanged. The invariant is kept. |
| `Ledger.Book` | fitness_studio/routers/classes.py:93-126 | Unknown course, then unknown user: the matching ValueError and no change. Success exactly when the pair's counter is below the course's `slot`; the counter then rises by exactly 1 and stays `<= slot`. Otherwise SlotLimitExceeded, with the counter unchanged. For known ids the pair has a row afterwards, even after a refusal: the row is inserted before the guard runs. Only the pair's row changes, courses and users never change, and the invariant is kept. |
| `Ledger.Release` | fitness_studio/routers/classes.py:129-165 | Unknown course or user: error and no change. No row for the pair: `NoEnrollment` and no change. A counter of 0: the row is deleted. Otherwise the counter falls by exactly 1. Only the pair's row changes, no counter ever rises, and the invariant (so the counter is never negative) is kept. |
| `Ledger.UpdateSlot` | fitness_studio/routers/course.py:34-46 | Unknown id: error and no change. Otherwise only that course's `slot` becomes the given value. Other fields, other courses, enrollments and users are unchanged, whatever the enrollments hold. |
| `Ledger.UpdateTiming` | fitness_studio/routers/course.py:49-63 | Unknown id: error and no change. Otherwise only that course's `timing` changes. |
| `Ledger.RemoveCourse` | fitness_studio/routers/course.py:66-70 | The course is deleted. As the ON DELETE CASCADE foreign key declared at fitness_studio/database.py:63-66 says, exactly the enrollment rows of that course go with it (whether the store enforces it: see Left out). Other courses and rows are untouched. An unknown id deletes nothing and is not an error. |
| `Ledger.RegisterCourse` | fitness_studio/routers/course.py:73-80 | A taken id is refused and nothing changes. Otherwise the course is inserted under the given id and returned. Nothing else changes. |
| `Studio.FitnessStudio.constructor` | fitness_studio/database.py:42-68 | Empty Course and CourseUser tables beside the given user ids satisfy the invariant. |
| `Studio.FitnessStudio.GetCourseInfo` | fitness_studio/routers/course.py:23-31 | Returns the stored course record exactly when the id is known. Otherwise it fails with `InvalidCourseId`. |
| `Studio.FitnessStudio.Book` | fitness_studio/routers/classes.py:93-126 | Updates the fields in place. It leaves exactly the tables and result of `Ledger.Book` and keeps the invariant. |
| `Studio.FitnessStudio.Release` | fitness_studio/routers/classes.py:129-165 | Updates the fields in place. It leaves exactly the tables and result of `Ledger.Release` and keeps the invariant. |
| `Studio.FitnessStudio.UpdateSlot` | fitness_studio/routers/course.py:34-46 | Updates the course map in place, as `Ledger.UpdateSlot` says. |
| `Studio.FitnessStudio.UpdateTiming` | fitness_studio/routers/course.py:49-63 | Updates the course map in place, as `Ledger.UpdateTiming` says. |
| `Studio.FitnessStudio.RemoveCourse` | fitness_studio/routers/course.py:66-70 | Deletes the course and cascades to its enrollments in place, as `Ledger.RemoveCourse` says. |
| `Studio.FitnessStudio.RegisterCourse` | fitness_studio/routers/course.py:73-80 | Inserts the course in place, as `Ledger.RegisterCourse` says. |
| `LedgerProperties.BookLeavesOtherPairs` | fitness_studio/routers/classes.py:117-122 | A booking for one pair leaves every other pair's row, and its counter, as it was. |
| `LedgerProperties.ReleaseLeavesOtherPairs` | fitness_studio/routers/classes.py:146-160 | A release for one pair leaves every other pair's row, and its counter, as it was. |
| `LedgerProperties.BookThenRelease` | fitness_studio/routers/classes.py:113-160 | After a successful booking, releasing for the same pair succeeds. The pair's counter returns to its value before the booking, the row is still there, and all other rows are as they were. |
| `LedgerProperties.DrainEnrollment` | fitness_studio/routers/classes.py:146-162 | Late deletion. From a counter of 1, the first release leaves the row at 0, the second deletes it, and the third fails with `NoEnrollment` and changes nothing. |
| `LedgerProperties.PerRowGuardAllowsOverbooking` | fitness_studio/routers/classes.py:110-122 | On a one-slot course, two different users both book successfully and together hold 2 slots. The guard is per row, not per course. |
| `LedgerProperties.BookKeepsBound` | fitness_studio/routers/classes.py:113-122 | Booking keeps every slot-holding row's counter `<=` its course's `slot`. |
| `LedgerProperties.ReleaseKeepsBound` | fitness_studio/routers/classes.py:151-160 | Releasing keeps the per-row bound. |
| `LedgerProperties.UpdateSlotBound` | fitness_studio/routers/course.py:34-46 | `update_slot_count` ignores bookings. After it, the per-row bound holds if and only if no row of that course holds more than the new `slot`. So lowering the capacity can break the bound. |
| `LedgerProperties.UpdateTimingKeepsBound` | fitness_studio/routers/course.py:49-63 | A timing change keeps the per-row bound. |
| `LedgerProperties.RemoveCourseKeepsBound` | fitness_studio/database.py:63-66 | Deleting a course, with its cascade, keeps the per-row bound. |
| `LedgerProperties.RegisterCourseKeepsBound` | fitness_studio/routers/course.py:73-80 | Registering a course keeps the per-row bound. |
| `LedgerProperties.RemoveCourseEndsEnrollments` | fitness_studio/database.py:63-66 | After a course is deleted, no user has a row in it. Booking or releasing it fails with `InvalidCourseId` and changes nothing. |
| `Ledger.AvailableSlot` | fitness_studio/routers/classes.py:68-70 | The listings' `available_slot`. It is positive exactly when the row's counter is below the course's `slot`, which is when the booking guard lets one more booking through. Together with the counter it adds up to `slot`. How bookings and releases move it is stated by `AvailableSlotAccounting`. |
| `LedgerProperties.AvailableSlotAccounting` | fitness_studio/routers/classes.py:68-70 | For an enrolled pair, booking succeeds exactly when the row's `slot - booked_slot` is positive. The booking then lowers it by 1, and it stays `>= 0`. Releasing a positive counter raises it by 1. |
| `LedgerProperties.Apply` | fitness_studio/routers/classes.py:93-165 | Any one booking or course request keeps the table invariant. |
| `LedgerProperties.Run` | fitness_studio/routers/classes.py:93-165 | Any sequence of requests, handled one after another, keeps the table invariant. |
| `LedgerProperties.ApplyKeepsBound` | fitness_studio/routers/classes.py:113-122 | Every request except a capacity change keeps the per-row bound. |
| `LedgerProperties.RunKeepsBound` | fitness_studio/routers/classes.py:113-122 | Starting within the per-row bound, any sequence of bookings, releases, timing changes, course deletions and registrations stays within it. |
| `LedgerProperties.BookTimes` | fitness_studio/routers/classes.py:93-126 | n bookings by one pair in a row keep the invariant. The exact number that succeed is stated by `BookTimesGrantsRemainingSlots`. |
| `LedgerProperties.BookTimesGrantsRemainingSlots` | fitness_studio/routers/classes.py:113-122 | No booking is lost or over-granted. Of n bookings by one user, exactly `min(n, room)` succeed, where room is the slots left above what that user already holds. The user's counter rises by that number and the courses do not change. |

## Left out

- Concurrency: the handlers are async and read-then-write with no lock, so two concurrent bookings can race. The model handles one call at a time; any per-course locking is out of scope.
- HTTP plumbing is left out: routing, query parameters, response bodies and status codes. The exception-to-status mapping survives only as distinct `Error` constructors.
- The listing endpoints `get_all_courses_with_instructor`, `get_all_courses_with_users` and `get_courses` are left out. They are SQL joins with grouping and pagination. Only their `available_slot` expression is modelled (`Ledger.AvailableSlot`).
- The database engine, sessions, connection lifecycle and SQL itself are left out; they are foreign library code. The model uses only the table shapes, the primary keys and the declared foreign keys.
- Ledger.RemoveCourse: assumes the store enforces the declared foreign keys and their ON DELETE CASCADE. The engine is SQLite (fitness_studio/database.py:84-92), which enforces foreign keys only after `PRAGMA foreign_keys=ON`, and nothing in the code issues it. As configured, deleting a course leaves its CourseUser rows behind, and they re-attach if the same id is registered again. The foreign-key half of `Consistent` (every row's course and user exist) rests on the same assumption.
- Row ids come from a counter that is never reused. The database's own id choice is not modelled.
- The User table's own handlers (profile CRUD, user deletion and its cascade) are left out: users are a fixed id set given to the constructor. The unused Booking table is left out as well.
- Integer widths are left out. `slot` is a SMALLINT and the ids and `booked_slot` are INTEGER columns; the model uses unbounded integers. In particular the model does not bound `slot`: `update_slot_count` and `register_course` store a caller-chosen value, and how the store treats one outside the SMALLINT range is not modelled.
- `timing` is treated as an opaque time-of-day value. Time zones, dates, passwords and the other profile fields are left out.
- Logging, configuration and application start-up are left out.
- The return value of `remove_course` (courses router) is left out. It is the driver's raw result, so `Ledger.RemoveCourse` returns only the new tables.
