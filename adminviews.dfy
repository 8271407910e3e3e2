/**
 * The administrators' pages: the filtered user list and its role counts,
 * the delete guard, the statistics of a user's detail page, and the
 * "send notification" view that selects recipients and creates one
 * notification per recipient.
 */
module AdminViews {
  import opened Wrappers
  import opened Text
  import opened Accounts
  import opened Courses
  import E = Enrollments
  import opened Notifications
  import Progress
  import CourseAccess

  /** `user_passes_test(is_admin)`: an authenticated administrator. */
  predicate AdminGate(user: Option<User>) {
    user.Some? && IsAdmin(user.value)
  }

  // ---------------------------------------------------------------------
  // `user_list`

  /** `field__icontains=q`, with ASCII case folding. */
  predicate IContains(field: string, q: string) {
    Contains(Lower(field), Lower(q))
  }

  /** The OR of the four `icontains` lookups. */
  predicate MatchesSearch(u: User, q: string) {
    IContains(u.username, q) || IContains(u.email, q) || IContains(u.firstName, q) || IContains(u.lastName, q)
  }

  /** The role filter (skipped when empty) and then the search (skipped
      when empty), in table order. */
  predicate Listed(u: User, roleFilter: string, q: string) {
    (roleFilter == [] || RoleTag(u.role) == roleFilter) && (q == [] || MatchesSearch(u, q))
  }

  /** The listed users: exactly those of the table that pass the role
      filter and the search, so a search never leaves the filtered role. */
  function UserList(users: seq<User>, roleFilter: string, q: string): (r: seq<User>)
    ensures |r| <= |users|
    ensures forall u :: u in r <==> u in users && Listed(u, roleFilter, q)
    ensures forall u :: u in r && roleFilter != [] ==> RoleTag(u.role) == roleFilter
  {
    if users == [] then []
    else
      var init := users[..|users| - 1];
      var u := users[|users| - 1];
      assert users == init + [u];
      var rest := UserList(init, roleFilter, q);
      if Listed(u, roleFilter, q) then rest + [u] else rest
  }

  /** The search ignores the case of the query. */
  lemma {:induction false} SearchIgnoresCase(users: seq<User>, roleFilter: string, q: string)
    ensures UserList(users, roleFilter, q) == UserList(users, roleFilter, Lower(q))
  {
    LowerIdempotent(q);
    assert forall u :: Listed(u, roleFilter, q) == Listed(u, roleFilter, Lower(q));
    if users != [] {
      SearchIgnoresCase(users[..|users| - 1], roleFilter, q);
    }
  }

  /** A role filter that is not a role tag lists nobody. */
  lemma {:induction false} UnknownRoleListsNobody(users: seq<User>, roleFilter: string, q: string)
    requires roleFilter != [] && ParseRole(roleFilter).None?
    ensures UserList(users, roleFilter, q) == []
  {
    if users != [] {
      UnknownRoleListsNobody(users[..|users| - 1], roleFilter, q);
    }
  }

  /** The number of users with this role. */
  function CountRole(users: seq<User>, role: Role): (n: nat)
    ensures n <= |users|
  {
    if users == [] then 0
    else CountRole(users[..|users| - 1], role) + (if users[|users| - 1].role == role then 1 else 0)
  }

  /** The page's student, teacher and administrator counts add up to the
      total number of users. */
  lemma {:induction false} RoleCountsPartition(users: seq<User>)
    ensures CountRole(users, Student) + CountRole(users, Teacher) + CountRole(users, Admin) == |users|
  {
    if users != [] {
      RoleCountsPartition(users[..|users| - 1]);
    }
  }

  // ---------------------------------------------------------------------
  // `delete_user`

  datatype DeleteOutcome = DeleteNotFound | DeleteOwnAccount | DeleteConfirm | Deleted

  /** The user is looked up first, then an administrator's own account is
      refused; a request that is not a POST only shows the confirmation
      page. */
  function DeleteDecision(requester: User, users: seq<User>, userId: nat, isPost: bool): (r: DeleteOutcome)
    ensures r == DeleteNotFound <==> FindUser(users, userId).None?
    ensures r == DeleteOwnAccount <==> FindUser(users, userId).Some? && requester.id == userId
    ensures r == Deleted <==> FindUser(users, userId).Some? && requester.id != userId && isPost
  {
    if FindUser(users, userId).None? then DeleteNotFound
    else if requester.id == userId then DeleteOwnAccount
    else if isPost then Deleted
    else DeleteConfirm
  }

  /** The table without the user `id`. */
  function RemoveUser(users: seq<User>, id: nat): (r: seq<User>)
    ensures |r| <= |users|
    ensures forall u :: u in r <==> u in users && u.id != id
  {
    if users == [] then []
    else
      var init := users[..|users| - 1];
      var u := users[|users| - 1];
      assert users == init + [u];
      if u.id == id then RemoveUser(init, id) else RemoveUser(init, id) + [u]
  }

  /** An administrator never deletes their own account. */
  lemma NoSelfDeletion(requester: User, users: seq<User>, isPost: bool)
    ensures DeleteDecision(requester, users, requester.id, isPost) != Deleted
    ensures FindUser(users, requester.id).Some? ==>
      DeleteDecision(requester, users, requester.id, isPost) == DeleteOwnAccount
  {
  }

  // ---------------------------------------------------------------------
  // `user_detail`

  /** The course of this enrolment is stored and taught by `teacher`. */
  predicate TaughtBy(courses: seq<Course>, course: nat, teacher: nat) {
    match FindCourse(courses, course)
    case Some(c) => c.instructor == teacher
    case None => false
  }

  /** The enrolments in the teacher's courses. */
  function TeacherEnrollments(t: E.Table, courses: seq<Course>, teacher: nat): set<(nat, nat)> {
    set k | k in t && TaughtBy(courses, k.1, teacher)
  }

  /** Those of them that are completed. */
  function TeacherCompleted(t: E.Table, courses: seq<Course>, teacher: nat): (r: set<(nat, nat)>)
    ensures r <= TeacherEnrollments(t, courses, teacher)
  {
    set k | k in t && TaughtBy(courses, k.1, teacher) && t[k] == E.Completed
  }

  /** `completion_rate`: completed enrolments over all enrolments in the
      teacher's courses, as a percentage, and 0 when there are none. */
  function TeacherCompletionRate(t: E.Table, courses: seq<Course>, teacher: nat): (rate: real)
    ensures 0.0 <= rate <= 100.0
    ensures TeacherEnrollments(t, courses, teacher) == {} ==> rate == 0.0
    ensures rate == 100.0 <==>
      TeacherEnrollments(t, courses, teacher) != {} &&
      forall k :: k in TeacherEnrollments(t, courses, teacher) ==> t[k] == E.Completed
  {
    var all := TeacherEnrollments(t, courses, teacher);
    var done := TeacherCompleted(t, courses, teacher);
    SubsetSize(done, all);
    Progress.PercentageBounds(|done|, |all|);
    assert (all != {} && forall k :: k in all ==> t[k] == E.Completed) <==> |all| > 0 && |done| == |all| by {
      if all != {} && forall k :: k in all ==> t[k] == E.Completed {
        assert all == done;
      }
      if |all| > 0 && |done| == |all| {
        assert all - done == {} by {
          assert |all - done| == |all| - |done|;
        }
      }
    }
    Progress.Percentage(|done|, |all|)
  }

  lemma SubsetSize<T>(a: set<T>, b: set<T>)
    requires a <= b
    ensures |a| <= |b|
  {
    assert b == a + (b - a);
  }

  /** The distinct users of a set of enrolments. */
  function UsersOf(ks: set<(nat, nat)>): set<nat> {
    set k | k in ks :: k.0
  }

  /** Counting distinct students never gives more than the enrolments. */
  lemma UsersOfAtMost(ks: set<(nat, nat)>)
    ensures |UsersOf(ks)| <= |ks|
    decreases |ks|
  {
    if ks != {} {
      var x :| x in ks;
      var rest := ks - {x};
      UsersOfAtMost(rest);
      SubsetSize(UsersOf(ks), UsersOf(rest) + {x.0});
    }
  }

  /** The teacher's courses that run today. */
  function ActiveCourseCount(courses: seq<Course>, teacher: nat, today: int): (n: nat)
    ensures n <= |courses|
  {
    if courses == [] then 0
    else
      var c := courses[|courses| - 1];
      ActiveCourseCount(courses[..|courses| - 1], teacher, today) +
        (if c.instructor == teacher && IsActive(c, today) then 1 else 0)
  }

  datatype TeacherStats = TeacherStats(studentCount: nat, activeCourses: nat, completionRate: real)

  /** The teacher's figures: distinct students over the enrolments of their
      courses, their courses that are active today, and the completion
      rate. */
  function TeacherStatsOf(t: E.Table, courses: seq<Course>, teacher: nat, today: int): (s: TeacherStats)
    ensures s.studentCount <= |TeacherEnrollments(t, courses, teacher)|
    ensures s.activeCourses <= |courses|
    ensures 0.0 <= s.completionRate <= 100.0
    ensures s.completionRate == TeacherCompletionRate(t, courses, teacher)
  {
    UsersOfAtMost(TeacherEnrollments(t, courses, teacher));
    TeacherStats(|UsersOf(TeacherEnrollments(t, courses, teacher))|,
                 ActiveCourseCount(courses, teacher, today),
                 TeacherCompletionRate(t, courses, teacher))
  }

  /** A student's enrolments. */
  function StudentEnrollments(t: E.Table, student: nat): set<(nat, nat)> {
    set k | k in t && k.0 == student
  }

  function StudentEnrollmentsWith(t: E.Table, student: nat, s: E.EnrollStatus): set<(nat, nat)> {
    set k | k in t && k.0 == student && t[k] == s
  }

  function StudentEnrollmentsOther(t: E.Table, student: nat): set<(nat, nat)> {
    set k | k in t && k.0 == student && t[k].OtherStatus?
  }

  /** A student's enrolments split into the enrolled, completed, dropped
      and otherwise-tagged ones. */
  lemma StudentCountPartition(t: E.Table, student: nat)
    ensures |StudentEnrollments(t, student)| ==
      |StudentEnrollmentsWith(t, student, E.Enrolled)| + |StudentEnrollmentsWith(t, student, E.Completed)|
      + |StudentEnrollmentsWith(t, student, E.Dropped)| + |StudentEnrollmentsOther(t, student)|
  {
    var e := StudentEnrollmentsWith(t, student, E.Enrolled);
    var c := StudentEnrollmentsWith(t, student, E.Completed);
    var d := StudentEnrollmentsWith(t, student, E.Dropped);
    var o := StudentEnrollmentsOther(t, student);
    assert StudentEnrollments(t, student) == e + c + d + o;
    assert e * c == {};
    assert |e + c| == |e| + |c|;
    assert (e + c) * d == {};
    assert |e + c + d| == |e + c| + |d|;
    assert (e + c + d) * o == {};
  }

  /** The student's figures: all their enrolments and those enrolled,
      completed and dropped; the three parts add up to the total exactly
      when none carries another status tag. */
  function StudentStatsOf(t: E.Table, student: nat): (s: CourseAccess.EnrollmentStats)
    ensures s.total == |StudentEnrollments(t, student)|
    ensures s.active + s.completed + s.dropped <= s.total
    ensures s.active + s.completed + s.dropped == s.total <==>
      forall k :: k in t && k.0 == student ==> !t[k].OtherStatus?
  {
    var e := StudentEnrollmentsWith(t, student, E.Enrolled);
    var c := StudentEnrollmentsWith(t, student, E.Completed);
    var d := StudentEnrollmentsWith(t, student, E.Dropped);
    var o := StudentEnrollmentsOther(t, student);
    StudentCountPartition(t, student);
    assert o == {} <==> forall k :: k in t && k.0 == student ==> !t[k].OtherStatus? by {
      if exists k :: k in t && k.0 == student && t[k].OtherStatus? {
        var k :| k in t && k.0 == student && t[k].OtherStatus?;
        assert k in o;
      }
    }
    CourseAccess.EnrollmentStats(|StudentEnrollments(t, student)|, |e|, |c|, |d|)
  }

  // ---------------------------------------------------------------------
  // `send_notification`

  /** A request parameter that is absent or empty, as `not value` tests it. */
  predicate Blank(v: Option<string>) {
    v.None? || v.value == []
  }

  /** The course id of the request, when it is a decimal number; other
      text makes the enrolment lookup fail. */
  function CourseIdOf(s: string): (r: Option<nat>)
    ensures r.Some? <==> s != [] && AllDigits(s)
  {
    if s != [] && AllDigits(s) then Some(DigitsValue(s)) else None
  }

  /** The users holding an enrolled enrolment in the course, in table
      order; any role, and no completed or dropped student. */
  function CourseRecipients(users: seq<User>, t: E.Table, course: nat): (r: seq<User>)
    ensures |r| <= |users|
    ensures forall u :: u in r <==> u in users && E.IsEnrolled(t, u.id, course)
  {
    if users == [] then []
    else
      var init := users[..|users| - 1];
      var u := users[|users| - 1];
      assert users == init + [u];
      if E.IsEnrolled(t, u.id, course) then CourseRecipients(init, t, course) + [u]
      else CourseRecipients(init, t, course)
  }

  /** The users with this role, in table order. */
  function UsersWithRole(users: seq<User>, role: Role): (r: seq<User>)
    ensures |r| == CountRole(users, role)
    ensures forall u :: u in r <==> u in users && u.role == role
  {
    if users == [] then []
    else
      var init := users[..|users| - 1];
      var u := users[|users| - 1];
      assert users == init + [u];
      if u.role == role then UsersWithRole(init, role) + [u] else UsersWithRole(init, role)
  }

  datatype SendError = MissingText | MissingCourse | BadCourseId | InvalidRecipient

  /** The checks of the view and its recipient selection, in its order:
      title and message are required (unstripped), then the recipient type
      chooses everyone, the students, the teachers, or the enrolled users
      of a course whose id must be given. */
  function SelectRecipients(users: seq<User>, t: E.Table, title: Option<string>, message: Option<string>,
                            recipientType: Option<string>, courseId: Option<string>): (r: Result<seq<User>, SendError>)
    ensures r == Err(MissingText) <==> Blank(title) || Blank(message)
    ensures r == Err(InvalidRecipient) <==> (!Blank(title) && !Blank(message) &&
      !(recipientType.Some? && recipientType.value in {"all", "students", "teachers", "course"}))
    ensures r == Err(MissingCourse) <==> (!Blank(title) && !Blank(message) &&
      recipientType == Some("course") && Blank(courseId))
    ensures r == Err(BadCourseId) <==> (!Blank(title) && !Blank(message) &&
      recipientType == Some("course") && !Blank(courseId) && CourseIdOf(courseId.value).None?)
    ensures r.Ok? <==> (!Blank(title) && !Blank(message) && recipientType.Some? &&
      recipientType.value in {"all", "students", "teachers", "course"} &&
      (recipientType == Some("course") ==> !Blank(courseId) && CourseIdOf(courseId.value).Some?))
    ensures r.Ok? ==> forall u :: u in r.value ==> u in users
    ensures r.Ok? && recipientType == Some("all") ==> r.value == users
    ensures r.Ok? && recipientType == Some("students") ==> forall u :: u in r.value <==> u in users && IsStudent(u)
    ensures r.Ok? && recipientType == Some("teachers") ==> forall u :: u in r.value <==> u in users && IsTeacher(u)
    ensures r.Ok? && recipientType == Some("course") ==>
      CourseIdOf(courseId.value).Some? &&
      forall u :: u in r.value <==> u in users && E.IsEnrolled(t, u.id, CourseIdOf(courseId.value).value)
  {
    if Blank(title) || Blank(message) then Err(MissingText)
    else if recipientType == Some("all") then Ok(users)
    else if recipientType == Some("students") then Ok(UsersWithRole(users, Student))
    else if recipientType == Some("teachers") then Ok(UsersWithRole(users, Teacher))
    else if recipientType == Some("course") then
      if Blank(courseId) then Err(MissingCourse)
      else match CourseIdOf(courseId.value)
        case None => Err(BadCourseId)
        case Some(c) => Ok(CourseRecipients(users, t, c))
    else Err(InvalidRecipient)
  }

  /** `notification_type or GENERAL`. */
  function SentType(ntype: Option<string>): (r: NotificationType)
    ensures Blank(ntype) ==> r == General
    ensures !Blank(ntype) ==> TypeTag(r) == ntype.value
  {
    if Blank(ntype) then General else TypeOfTag(ntype.value)
  }

  /** One new notification per recipient, in order. */
  function Announcements(rs: seq<User>, title: string, message: string, ntype: NotificationType): (r: seq<Notification>)
    ensures |r| == |rs|
    ensures forall i :: 0 <= i < |rs| ==> r[i] == NewNotification(rs[i].id, title, message, ntype)
  {
    if rs == [] then []
    else Announcements(rs[..|rs| - 1], title, message, ntype) + [NewNotification(rs[|rs| - 1].id, title, message, ntype)]
  }

  /** How often `user` is among the recipients. */
  function Occurrences(rs: seq<User>, user: nat): nat {
    if rs == [] then 0
    else Occurrences(rs[..|rs| - 1], user) + (if rs[|rs| - 1].id == user then 1 else 0)
  }

  /** Every recipient gains one unread notification per time it is listed,
      and nobody else gains any. */
  lemma {:induction false} AnnouncementsUnread(ns: seq<Notification>, rs: seq<User>, title: string, message: string,
                                              ntype: NotificationType, user: nat)
    ensures UnreadCount(ns + Announcements(rs, title, message, ntype), user) == UnreadCount(ns, user) + Occurrences(rs, user)
  {
    if rs != [] {
      var init := rs[..|rs| - 1];
      var n := NewNotification(rs[|rs| - 1].id, title, message, ntype);
      AnnouncementsUnread(ns, init, title, message, ntype, user);
      assert Announcements(rs, title, message, ntype) == Announcements(init, title, message, ntype) + [n];
      assert ns + Announcements(rs, title, message, ntype) == (ns + Announcements(init, title, message, ntype)) + [n];
      UnreadCountAppend(ns + Announcements(init, title, message, ntype), n, user);
      assert Occurrences(rs, user) == Occurrences(init, user) + (if rs[|rs| - 1].id == user then 1 else 0);
      assert n.user == rs[|rs| - 1].id && !n.isRead;
    } else {
      assert ns + Announcements(rs, title, message, ntype) == ns;
    }
  }

  /** A user whose id is unique in the table is listed at most once. */
  lemma {:induction false} OccurrencesOfUnique(rs: seq<User>, user: nat)
    requires forall i, j :: 0 <= i < j < |rs| ==> rs[i].id != rs[j].id
    ensures Occurrences(rs, user) <= 1
    ensures Occurrences(rs, user) == 1 <==> exists i :: 0 <= i < |rs| && rs[i].id == user
  {
    if rs != [] {
      var init := rs[..|rs| - 1];
      OccurrencesOfUnique(init, user);
      if rs[|rs| - 1].id == user {
        assert forall i :: 0 <= i < |init| ==> init[i].id != user;
      }
      assert (exists i :: 0 <= i < |rs| && rs[i].id == user) <==>
        (exists i :: 0 <= i < |init| && init[i].id == user) || rs[|rs| - 1].id == user by {
        if exists i :: 0 <= i < |rs| && rs[i].id == user {
          var i :| 0 <= i < |rs| && rs[i].id == user;
          if i < |init| {
            assert init[i].id == user;
          }
        }
        if exists i :: 0 <= i < |init| && init[i].id == user {
          var i :| 0 <= i < |init| && init[i].id == user;
          assert rs[i].id == user;
        }
      }
    }
  }

  datatype SendOutcome = SendRefused(error: SendError) | Sent(count: nat)

  /** The fan-out loop: a notification for each recipient, appended in
      order, and the count of notifications created. */
  method FanOut(ns: seq<Notification>, rs: seq<User>, title: string, message: string, ntype: NotificationType)
    returns (out: seq<Notification>, count: nat)
    ensures out == ns + Announcements(rs, title, message, ntype)
    ensures count == |rs|
  {
    out, count := ns, 0;
    var i := 0;
    while i < |rs|
      invariant 0 <= i <= |rs|
      invariant count == i
      invariant out == ns + Announcements(rs[..i], title, message, ntype)
    {
      assert rs[..i + 1][..i] == rs[..i];
      out := out + [NewNotification(rs[i].id, title, message, ntype)];
      count := count + 1;
      i := i + 1;
    }
    assert rs[..i] == rs;
  }

  /** `send_notification` on a POST: nothing is created when a check fails;
      otherwise one notification per recipient, of the given type or
      general, and the reported count is the number of recipients. */
  method SendNotification(ns: seq<Notification>, users: seq<User>, t: E.Table,
                          ntype: Option<string>, title: Option<string>, message: Option<string>,
                          recipientType: Option<string>, courseId: Option<string>)
    returns (out: seq<Notification>, outcome: SendOutcome)
    ensures SelectRecipients(users, t, title, message, recipientType, courseId).Err? ==>
      out == ns && outcome == SendRefused(SelectRecipients(users, t, title, message, recipientType, courseId).error)
    ensures SelectRecipients(users, t, title, message, recipientType, courseId).Ok? ==>
      var rs := SelectRecipients(users, t, title, message, recipientType, courseId).value;
      out == ns + Announcements(rs, title.value, message.value, SentType(ntype)) && outcome == Sent(|rs|)
  {
    match SelectRecipients(users, t, title, message, recipientType, courseId)
    case Err(e) =>
      out, outcome := ns, SendRefused(e);
    case Ok(rs) =>
      var count;
      out, count := FanOut(ns, rs, title.value, message.value, SentType(ntype));
      outcome := Sent(count);
  }
}
