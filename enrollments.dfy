/**
 * Enrolments: the status tag, the table keyed by (user id, course id) that
 * makes one enrolment per pair structural, the serializer's duplicate check,
 * the object permission and the role-filtered listing.
 */
module Enrollments {
  import opened Wrappers
  import opened Accounts
  import opened Courses

  /** The status column. It is declared with three choices, but the course
      roster view stores whatever string it is sent, so any other tag is
      kept as `OtherStatus`. */
  datatype EnrollStatus = Enrolled | Completed | Dropped | OtherStatus(tag: string)

  /** The status a stored string denotes. */
  function StatusOfTag(s: string): (r: EnrollStatus)
    ensures r.OtherStatus? <==> s !in {"enrolled", "completed", "dropped"}
    ensures r.OtherStatus? ==> r.tag == s
  {
    if s == "enrolled" then Enrolled
    else if s == "completed" then Completed
    else if s == "dropped" then Dropped
    else OtherStatus(s)
  }

  /** The three declared choices (`STATUS_CHOICES`). */
  function ParseStatus(s: string): (r: Option<EnrollStatus>)
    ensures r.Some? <==> s in {"enrolled", "completed", "dropped"}
    ensures r.Some? ==> !r.value.OtherStatus? && r.value == StatusOfTag(s)
  {
    if s in {"enrolled", "completed", "dropped"} then Some(StatusOfTag(s)) else None
  }

  /** A new enrolment starts as enrolled. */
  const DefaultStatus: EnrollStatus := Enrolled

  /** Enrolments keyed by (user id, course id): at most one per pair. */
  type Table = map<(nat, nat), EnrollStatus>

  /** The user holds an enrolment in the course with status enrolled. */
  predicate IsEnrolled(t: Table, user: nat, course: nat) {
    (user, course) in t && t[(user, course)] == Enrolled
  }

  /** `EnrollmentSerializer.validate`: refuses a course in which the requester
      already has an enrolment of any status; without a course it passes. */
  function ValidateEnrollment(t: Table, requester: User, course: Option<nat>): (r: bool)
    ensures r <==> course.None? || (requester.id, course.value) !in t
  {
    !(course.Some? && (requester.id, course.value) in t)
  }

  /** `IsOwnerOrAdmin.has_object_permission` on the enrolment `key`, whose
      course has the instructor `instructor`. */
  predicate IsOwnerOrAdmin(requester: User, key: (nat, nat), instructor: nat) {
    IsAdmin(requester) || (IsTeacher(requester) && instructor == requester.id) || key.0 == requester.id
  }

  /** Administrators always pass; anyone who is neither an administrator nor
      the course's teaching instructor passes exactly on their own
      enrolment, so a student never passes on another user's. */
  lemma OwnerOrAdminRules(requester: User, key: (nat, nat), instructor: nat)
    ensures IsAdmin(requester) ==> IsOwnerOrAdmin(requester, key, instructor)
    ensures !IsAdmin(requester) && !(IsTeacher(requester) && instructor == requester.id) ==>
      (IsOwnerOrAdmin(requester, key, instructor) <==> key.0 == requester.id)
    ensures IsStudent(requester) && key.0 != requester.id ==> !IsOwnerOrAdmin(requester, key, instructor)
  {
  }

  /** The instructor of the course with this id; 0 when the course is not in
      the table (the foreign key makes that impossible in stored rows). */
  function InstructorOf(courses: seq<Course>, course: nat): nat {
    match FindCourse(courses, course)
    case Some(c) => c.instructor
    case None => 0
  }

  /** `get_queryset`: administrators see every enrolment, teachers those of
      the courses they instruct, everyone else their own. */
  function VisibleEnrollments(t: Table, courses: seq<Course>, requester: User): (r: set<(nat, nat)>)
    ensures r <= t.Keys
    ensures IsAdmin(requester) ==> r == t.Keys
    ensures IsTeacher(requester) ==> forall k :: k in r <==> k in t && InstructorOf(courses, k.1) == requester.id
    ensures IsStudent(requester) ==> forall k :: k in r <==> k in t && k.0 == requester.id
  {
    if IsAdmin(requester) then t.Keys
    else if IsTeacher(requester) then set k | k in t && InstructorOf(courses, k.1) == requester.id
    else set k | k in t && k.0 == requester.id
  }

  /** Whatever the listing shows, the object permission also allows, and a
      teacher's listing is exactly the enrolments of their courses. */
  lemma VisibleImpliesPermitted(t: Table, courses: seq<Course>, requester: User, k: (nat, nat))
    requires k in VisibleEnrollments(t, courses, requester)
    ensures IsOwnerOrAdmin(requester, k, InstructorOf(courses, k.1))
    ensures IsTeacher(requester) ==> InstructorOf(courses, k.1) == requester.id
  {
  }

  /** The keys of a course's enrolments. */
  function CourseEnrollments(t: Table, course: nat): set<(nat, nat)> {
    set k | k in t && k.1 == course
  }

  /** The keys of a course's enrolments with the given status. */
  function CourseEnrollmentsWith(t: Table, course: nat, s: EnrollStatus): set<(nat, nat)> {
    set k | k in t && k.1 == course && t[k] == s
  }

  /** `Course.get_enrollments_count` counts enrolments of every status: the
      enrolled, completed, dropped and otherwise-tagged ones together. */
  lemma EnrollmentCountPartition(t: Table, course: nat)
    ensures |CourseEnrollments(t, course)| ==
      |CourseEnrollmentsWith(t, course, Enrolled)| + |CourseEnrollmentsWith(t, course, Completed)|
      + |CourseEnrollmentsWith(t, course, Dropped)|
      + |set k | k in t && k.1 == course && t[k].OtherStatus?|
  {
    var e := CourseEnrollmentsWith(t, course, Enrolled);
    var c := CourseEnrollmentsWith(t, course, Completed);
    var d := CourseEnrollmentsWith(t, course, Dropped);
    var o := set k | k in t && k.1 == course && t[k].OtherStatus?;
    assert CourseEnrollments(t, course) == e + c + d + o;
    assert e * c == {} && (e + c) * d == {} && (e + c + d) * o == {};
  }
}
