/**
 * Courses: the record, its activity window, the course form's date rules,
 * the write permission of the course API, and the instructor's display name.
 * Dates are day numbers; today's date is a parameter.
 */
module Courses {
  import opened Wrappers
  import opened Accounts

  datatype Course = Course(
    id: nat,
    title: string,
    instructor: nat,
    startDate: int,
    endDate: int)

  /** The first course in the table with this id, if any. */
  function FindCourse(courses: seq<Course>, id: nat): (r: Option<Course>)
    ensures r.Some? ==> r.value in courses && r.value.id == id
    ensures r.None? <==> forall i :: 0 <= i < |courses| ==> courses[i].id != id
  {
    Find(courses, (c: Course) => c.id == id)
  }

  /** A course is active from its start date to its end date, both included. */
  predicate IsActive(c: Course, today: int) {
    c.startDate <= today <= c.endDate
  }

  /** A course is active on a day exactly when that day is neither before the
      start nor after the end; a single-day course is active on that day. */
  lemma ActiveWindow(c: Course, today: int)
    ensures today < c.startDate ==> !IsActive(c, today)
    ensures today > c.endDate ==> !IsActive(c, today)
    ensures c.startDate == c.endDate ==> (IsActive(c, today) <==> today == c.startDate)
  {
  }

  datatype DateError = EndBeforeStart | StartInPast

  /** The course form's cross-field check. Nothing is checked unless both
      dates are given; then an inverted range is refused, and a start before
      today is refused only for a course that is not yet saved. */
  function CleanCourseDates(start: Option<int>, end: Option<int>, isNew: bool, today: int): (r: Option<DateError>)
    ensures start.None? || end.None? ==> r.None?
    ensures r == Some(EndBeforeStart) <==> start.Some? && end.Some? && start.value > end.value
    ensures r == Some(StartInPast) <==>
      start.Some? && end.Some? && start.value <= end.value && start.value < today && isNew
    ensures start.Some? && end.Some? && start.value == end.value && (start.value >= today || !isNew) ==> r.None?
  {
    if start.Some? && end.Some? then
      if start.value > end.value then Some(EndBeforeStart)
      else if start.value < today && isNew then Some(StartInPast)
      else None
    else None
  }

  /** `IsInstructorOrReadOnly.has_permission`: reads are open to everyone;
      writes need an authenticated teacher. `user` is `None` for an
      anonymous request. */
  predicate MayWriteCourses(user: Option<User>, safeMethod: bool) {
    safeMethod || (user.Some? && IsTeacher(user.value))
  }

  /** `IsInstructorOrReadOnly.has_object_permission`: reads are open; a write
      needs the course's instructor or an administrator. */
  predicate MayWriteCourse(user: Option<User>, safeMethod: bool, c: Course) {
    safeMethod || (user.Some? && (c.instructor == user.value.id || IsAdmin(user.value)))
  }

  /** An administrator passes the object check on every course but fails the
      view check for writes, since the view check asks for a teacher; a
      student may never write. */
  lemma CourseWriteRules(u: User, c: Course)
    ensures MayWriteCourse(Some(u), false, c) <==> c.instructor == u.id || IsAdmin(u)
    ensures IsAdmin(u) ==> !MayWriteCourses(Some(u), false) && MayWriteCourse(Some(u), false, c)
    ensures IsStudent(u) ==> !MayWriteCourses(Some(u), false)
    ensures MayWriteCourses(None, true) && MayWriteCourse(None, true, c)
    ensures !MayWriteCourses(None, false) && !MayWriteCourse(None, false, c)
  {
  }

  /** `instructor_name`: the first name, one space, the last name. */
  function InstructorName(instructor: User): (r: string)
    ensures |r| == |instructor.firstName| + 1 + |instructor.lastName|
    ensures r[..|instructor.firstName|] == instructor.firstName
    ensures r[|instructor.firstName|] == ' '
    ensures r[|instructor.firstName| + 1..] == instructor.lastName
  {
    instructor.firstName + " " + instructor.lastName
  }
}
