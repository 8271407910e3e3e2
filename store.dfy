/**
 * The database and the endpoints that change it. `Lms` holds the tables:
 * the parent tables (users, courses, lessons, quizzes, questions) as rows in
 * table order, the relation tables keyed by their unique pairs (answers by
 * (question, user), progress by (user, lesson), enrolments by (user,
 * course)), and certificates and notifications as rows in creation order.
 * Each view or API action that writes is a method of `Lms`; the request
 * user is passed in as a `User` value.
 */
module Store {
  import opened Wrappers
  import opened Text
  import opened Accounts
  import opened Courses
  import E = Enrollments
  import opened Lessons
  import opened Quizzes
  import opened Progress
  import opened Certificates
  import N = Notifications
  import CourseAccess
  import AdminViews

  /** Every table at once, to say which of them an endpoint changes. */
  datatype Db = Db(users: seq<User>, courses: seq<Course>, lessons: seq<Lesson>, quizzes: seq<Quiz>,
                   questions: seq<Question>, answers: AnswerTable, progress: Progress.Table,
                   enrollments: E.Table, certificates: seq<Certificate>, notifications: seq<N.Notification>)

  /** A request value such as `course_id` that `not value` rejects: absent
      or zero. */
  predicate Falsy(v: Option<nat>) {
    v.None? || v.value == 0
  }

  // ---------------------------------------------------------------------
  // Certificates table

  /** The code is already used by a stored certificate. */
  predicate CodeInUse(certs: seq<Certificate>, code: string) {
    exists i :: 0 <= i < |certs| && certs[i].code == code
  }

  /** The code column is unique. */
  predicate UniqueCodes(certs: seq<Certificate>) {
    forall i, j :: 0 <= i < j < |certs| ==> certs[i].code != certs[j].code
  }

  /** No (user, course) pair has two certificates. The schema does not say
      so; every endpoint that creates one checks first. */
  predicate OnePerPair(certs: seq<Certificate>) {
    forall i, j :: 0 <= i < j < |certs| ==> certs[i].user != certs[j].user || certs[i].course != certs[j].course
  }

  /** The stored state every endpoint keeps: lesson ids are distinct (the
      primary key), and so are certificate codes and certificate pairs. */
  predicate Consistent(db: Db) {
    DistinctIds(db.lessons) && UniqueCodes(db.certificates) && OnePerPair(db.certificates)
  }

  /** `Certificate.objects.create(user=..., course=...)`: a certificate
      without a code, which `save` then fills in. */
  function NewCertificate(user: nat, course: nat, hex: string): (c: Certificate)
    ensures c.user == user && c.course == course && c.code == GenerateCode(user, course, hex)
  {
    SaveCode(Certificate(user, course, []), hex)
  }

  /** A certificate with a free code for a pair without one keeps the
      table consistent, and afterwards the pair has its certificate. */
  lemma AddCertificateKeepsUnique(certs: seq<Certificate>, c: Certificate)
    requires UniqueCodes(certs) && OnePerPair(certs)
    requires !CodeInUse(certs, c.code) && !HasCertificate(certs, c.user, c.course)
    ensures UniqueCodes(certs + [c]) && OnePerPair(certs + [c])
    ensures HasCertificate(certs + [c], c.user, c.course)
  {
    var r := certs + [c];
    assert r[|certs|] == c;
    forall i, j | 0 <= i < j < |r| ensures r[i].code != r[j].code {
      if j == |certs| {
        assert r[i] == certs[i];
      }
    }
    forall i, j | 0 <= i < j < |r| ensures r[i].user != r[j].user || r[i].course != r[j].course {
      if j == |certs| {
        assert r[i] == certs[i];
      }
    }
  }

  /** `Certificate.objects.filter(user=..., course=...).first()`. */
  function FirstCertificate(certs: seq<Certificate>, user: nat, course: nat): (r: Option<Certificate>)
    ensures r.Some? <==> HasCertificate(certs, user, course)
    ensures r.Some? ==> r.value in certs && r.value.user == user && r.value.course == course
  {
    if certs == [] then None
    else if certs[0].user == user && certs[0].course == course then Some(certs[0])
    else
      var r := FirstCertificate(certs[1..], user, course);
      assert HasCertificate(certs, user, course) ==> HasCertificate(certs[1..], user, course) by {
        if HasCertificate(certs, user, course) {
          var i :| 0 <= i < |certs| && certs[i].user == user && certs[i].course == course;
          assert i > 0 && certs[1..][i - 1] == certs[i];
        }
      }
      assert HasCertificate(certs[1..], user, course) ==> HasCertificate(certs, user, course) by {
        if HasCertificate(certs[1..], user, course) {
          var i :| 0 <= i < |certs[1..]| && certs[1..][i].user == user && certs[1..][i].course == course;
          assert certs[i + 1] == certs[1..][i];
        }
      }
      r
  }

  /** The notification of a new enrolment. */
  function EnrollmentNotice(user: nat, c: Course): (n: N.Notification)
    ensures n.user == user && n.ntype == N.Enrollment && !n.isRead
  {
    N.NewNotification(user, "Enrollment Confirmation: " + c.title,
                      "You have successfully enrolled in the course: " + c.title, N.Enrollment)
  }

  /** The notification of an issued certificate. */
  function CertificateNotice(user: nat, c: Course): (n: N.Notification)
    ensures n.user == user && n.ntype == N.CertificateIssued && !n.isRead
  {
    N.NewNotification(user, "Certificate Issued: " + c.title,
                      "Congratulations! You have been issued a certificate for completing " + c.title + ".",
                      N.CertificateIssued)
  }

  // ---------------------------------------------------------------------
  // `QuizViewSet.submit_answers`

  /** The quiz with this id, if any. */
  function FindQuiz(zs: seq<Quiz>, id: nat): (r: Option<Quiz>)
    ensures r.Some? ==> r.value in zs && r.value.id == id
    ensures r.None? <==> forall i :: 0 <= i < |zs| ==> zs[i].id != id
  {
    Find(zs, (z: Quiz) => z.id == id)
  }

  /** `Question.objects.get(id=..., quiz=quiz)`: the question with this id,
      provided it belongs to the quiz. */
  function FindQuestion(qs: seq<Question>, id: nat, quiz: nat): (r: Option<Question>)
    ensures r.Some? ==> r.value in qs && r.value.id == id && r.value.quiz == quiz
    ensures r.None? <==> forall i :: 0 <= i < |qs| ==> qs[i].id != id || qs[i].quiz != quiz
  {
    Find(qs, (q: Question) => q.id == id && q.quiz == quiz)
  }

  /** The quizzes `get_object` finds for the user (`get_queryset`): every
      quiz for an administrator, those of the courses they instruct for a
      teacher, those of the courses they are enrolled in for a student. */
  predicate QuizVisible(user: User, z: Quiz, courses: seq<Course>, t: E.Table) {
    IsAdmin(user) || (IsTeacher(user) && FindCourse(courses, z.course).Some? && FindCourse(courses, z.course).value.instructor == user.id)
    || (IsStudent(user) && E.IsEnrolled(t, user.id, z.course))
  }

  /** What one question of the quiz is worth (`total_marks` over the
      quiz's question count at grading time). */
  function QuizWeight(qs: seq<Question>, q: Question, z: Quiz): (w: real)
    requires q in qs && q.quiz == z.id
    ensures w >= 0.0
  {
    assert q in QuizQuestions(qs, z.id);
    Weight(z.totalMarks, |QuizQuestions(qs, z.id)|)
  }

  /** One item of the request: the question id and the answer text, either
      of which may be missing. */
  datatype AnswerItem = AnswerItem(question: Option<nat>, text: Option<string>)

  /** The entry the loop reports for an item. */
  datatype ItemResult =
    | Graded(question: nat, isCorrect: bool, marks: real)
    | Rejected(question: nat)
    | QuestionMissing(requested: Option<nat>)

  /** The entry for one item: a question that is not one of this quiz's is
      reported missing; a missing or blank text (the serializer trims it)
      is rejected; otherwise the trimmed text is graded with the quiz's
      weight. */
  function ItemResultFor(qs: seq<Question>, z: Quiz, item: AnswerItem): (r: ItemResult)
    ensures r.QuestionMissing? <==> item.question.None? || FindQuestion(qs, item.question.value, z.id).None?
    ensures r.QuestionMissing? ==> r.requested == item.question
    ensures r.Rejected? <==> !r.QuestionMissing? && (item.text.None? || Strip(item.text.value) == [])
    ensures !r.QuestionMissing? ==> r.question == item.question.value
  {
    if item.question.None? then QuestionMissing(None)
    else match FindQuestion(qs, item.question.value, z.id)
      case None => QuestionMissing(item.question)
      case Some(q) =>
        if item.text.None? || Strip(item.text.value) == [] then Rejected(q.id)
        else
          var g := GradeAnswer(q.qtype, q.correctAnswer, Strip(item.text.value), QuizWeight(qs, q, z));
          Graded(q.id, g.isCorrect, g.marks)
  }

  /** The answer table after one item: a graded item upserts the user's
      answer to its question; any other item changes nothing. */
  function ApplyItem(t: AnswerTable, qs: seq<Question>, z: Quiz, user: nat, item: AnswerItem): AnswerTable {
    if ItemResultFor(qs, z, item).Graded? then
      var q := FindQuestion(qs, item.question.value, z.id).value;
      SubmitAnswer(t, q, user, Strip(item.text.value), QuizWeight(qs, q, z))
    else t
  }

  /** The answer table after the loop has handled `items` in order. */
  function AfterItems(t: AnswerTable, qs: seq<Question>, z: Quiz, user: nat, items: seq<AnswerItem>): AnswerTable {
    if items == [] then t
    else ApplyItem(AfterItems(t, qs, z, user, items[..|items| - 1]), qs, z, user, items[|items| - 1])
  }

  /** A graded entry reports exactly the row that was stored: the trimmed
      text, with the reported correctness and marks, and marks between 0
      and the question's weight. */
  lemma EntryMatchesRow(t: AnswerTable, qs: seq<Question>, z: Quiz, user: nat, item: AnswerItem)
    requires ItemResultFor(qs, z, item).Graded?
    ensures var r := ItemResultFor(qs, z, item);
      var q := FindQuestion(qs, r.question, z.id).value;
      ApplyItem(t, qs, z, user, item)[(r.question, user)] == Answer(Strip(item.text.value), r.isCorrect, r.marks) &&
      0.0 <= r.marks <= QuizWeight(qs, q, z)
  {
    var q := FindQuestion(qs, item.question.value, z.id).value;
    MarksWithinWeight(q.qtype, q.correctAnswer, Strip(item.text.value), QuizWeight(qs, q, z));
  }

  /** The loop only ever writes the caller's answers to questions of this
      quiz: every other row is kept, and no row disappears. */
  lemma {:induction false} AfterItemsFrame(t: AnswerTable, qs: seq<Question>, z: Quiz, user: nat, items: seq<AnswerItem>)
    ensures t.Keys <= AfterItems(t, qs, z, user, items).Keys
    ensures forall k :: k in AfterItems(t, qs, z, user, items) && k !in t ==>
      k.1 == user && FindQuestion(qs, k.0, z.id).Some?
    ensures forall k :: k in t && (k.1 != user || FindQuestion(qs, k.0, z.id).None?) ==>
      AfterItems(t, qs, z, user, items)[k] == t[k]
  {
    if items != [] {
      AfterItemsFrame(t, qs, z, user, items[..|items| - 1]);
    }
  }

  /** Items that are all reported missing or rejected change no answer. */
  lemma {:induction false} FailedItemsChangeNothing(t: AnswerTable, qs: seq<Question>, z: Quiz, user: nat, items: seq<AnswerItem>)
    requires forall i :: 0 <= i < |items| ==> !ItemResultFor(qs, z, items[i]).Graded?
    ensures AfterItems(t, qs, z, user, items) == t
  {
    if items != [] {
      var init := items[..|items| - 1];
      assert forall i :: 0 <= i < |init| ==> init[i] == items[i];
      FailedItemsChangeNothing(t, qs, z, user, init);
    }
  }

  /** Of two items for the same question, the later one decides the row. */
  lemma LaterItemWins(t: AnswerTable, qs: seq<Question>, z: Quiz, user: nat, first: AnswerItem, second: AnswerItem)
    requires ItemResultFor(qs, z, first).Graded? && ItemResultFor(qs, z, second).Graded?
    requires first.question == second.question
    ensures AfterItems(t, qs, z, user, [first, second]) == AfterItems(t, qs, z, user, [second])
  {
    var q := FindQuestion(qs, first.question.value, z.id).value;
    var w := QuizWeight(qs, q, z);
    AfterPair(t, qs, z, user, first, second);
    AfterSingle(t, qs, z, user, second);
    var t1 := ApplyItem(t, qs, z, user, first);
    assert t1 == SubmitAnswer(t, q, user, Strip(first.text.value), w);
    assert ApplyItem(t1, qs, z, user, second) == SubmitAnswer(t1, q, user, Strip(second.text.value), w);
    assert ApplyItem(t, qs, z, user, second) == SubmitAnswer(t, q, user, Strip(second.text.value), w);
    ResubmissionOverwrites(t, q, user, Strip(first.text.value), Strip(second.text.value), w);
  }

  lemma AfterItemsStep(t: AnswerTable, qs: seq<Question>, z: Quiz, user: nat, items: seq<AnswerItem>, i: nat)
    requires i < |items|
    ensures AfterItems(t, qs, z, user, items[..i + 1]) == ApplyItem(AfterItems(t, qs, z, user, items[..i]), qs, z, user, items[i])
  {
    assert items[..i + 1][..i] == items[..i];
  }

  lemma AfterSingle(t: AnswerTable, qs: seq<Question>, z: Quiz, user: nat, x: AnswerItem)
    ensures AfterItems(t, qs, z, user, [x]) == ApplyItem(t, qs, z, user, x)
  {
    assert [x][..0] == [];
  }

  lemma AfterPair(t: AnswerTable, qs: seq<Question>, z: Quiz, user: nat, x: AnswerItem, y: AnswerItem)
    ensures AfterItems(t, qs, z, user, [x, y]) == ApplyItem(ApplyItem(t, qs, z, user, x), qs, z, user, y)
  {
    assert [x, y][..1] == [x];
    AfterSingle(t, qs, z, user, x);
  }

  datatype SubmitOutcome = QuizNotFound | NotEnrolled | Results(results: seq<ItemResult>)

  // ---------------------------------------------------------------------
  // `CertificateViewSet.issue`

  datatype IssueOutcome =
    | IssueForbidden
    | IssueMissingIds
    | IssueNotFound
    | IssueDuplicate
    | IssueNotEnrolled
    | IssueCodeClash
    | Issued

  /** The guards of `issue`, in its order: the requester's role, both ids
      given, the course and a student with that id, the instructor check,
      an existing certificate, an enrolment of any status, and last the
      unique code column. */
  function IssueDecision(requester: User, db: Db, courseId: Option<nat>, studentId: Option<nat>, hex: string): IssueOutcome {
    if !IsTeacher(requester) && !IsAdmin(requester) then IssueForbidden
    else if Falsy(courseId) || Falsy(studentId) then IssueMissingIds
    else match FindCourse(db.courses, courseId.value)
      case None => IssueNotFound
      case Some(course) =>
        match FindUser(db.users, studentId.value)
        case None => IssueNotFound
        case Some(student) =>
          if !IsStudent(student) then IssueNotFound
          else if !IsAdmin(requester) && course.instructor != requester.id then IssueForbidden
          else if HasCertificate(db.certificates, studentId.value, courseId.value) then IssueDuplicate
          else if (studentId.value, courseId.value) !in db.enrollments then IssueNotEnrolled
          else if CodeInUse(db.certificates, NewCertificate(studentId.value, courseId.value, hex).code) then IssueCodeClash
          else Issued
  }

  /** What `issue` guarantees: only staff get past the first guard; a
      certificate is issued only to a student with an enrolment and none
      yet, by an administrator or the course's instructor; and the
      duplicate check comes before the enrolment check. */
  lemma IssueRules(requester: User, db: Db, courseId: Option<nat>, studentId: Option<nat>, hex: string)
    ensures !IsTeacher(requester) && !IsAdmin(requester) ==> IssueDecision(requester, db, courseId, studentId, hex) == IssueForbidden
    ensures IssueDecision(requester, db, courseId, studentId, hex) == Issued ==>
      !Falsy(courseId) && !Falsy(studentId) &&
      FindCourse(db.courses, courseId.value).Some? &&
      (IsAdmin(requester) || FindCourse(db.courses, courseId.value).value.instructor == requester.id) &&
      FindUser(db.users, studentId.value).Some? && IsStudent(FindUser(db.users, studentId.value).value) &&
      !HasCertificate(db.certificates, studentId.value, courseId.value) &&
      (studentId.value, courseId.value) in db.enrollments
    ensures ((IsTeacher(requester) || IsAdmin(requester)) && !Falsy(courseId) && !Falsy(studentId) &&
      FindCourse(db.courses, courseId.value).Some? &&
      (IsAdmin(requester) || FindCourse(db.courses, courseId.value).value.instructor == requester.id) &&
      FindUser(db.users, studentId.value).Some? && IsStudent(FindUser(db.users, studentId.value).value) &&
      HasCertificate(db.certificates, studentId.value, courseId.value)) ==>
      IssueDecision(requester, db, courseId, studentId, hex) == IssueDuplicate
  {
  }

  /** Unlike the generate view, `issue` never looks at lesson progress: the
      course's instructor whose student has not completed the lessons is
      refused by the view and served by the API. */
  lemma IssueSkipsLessonCheck(requester: User, db: Db, courseId: nat, studentId: nat, hex: string)
    requires IsTeacher(requester) && courseId != 0 && studentId != 0
    requires FindCourse(db.courses, courseId).Some? && FindCourse(db.courses, courseId).value.instructor == requester.id
    requires FindUser(db.users, studentId).Some? && IsStudent(FindUser(db.users, studentId).value)
    requires (studentId, courseId) in db.enrollments && !HasCertificate(db.certificates, studentId, courseId)
    requires !CodeInUse(db.certificates, NewCertificate(studentId, courseId, hex).code)
    requires CountWith(db.progress, studentId, CourseLessons(db.lessons, courseId), Completed) < |CourseLessons(db.lessons, courseId)|
    ensures IssueDecision(requester, db, Some(courseId), Some(studentId), hex) == Issued
    ensures GenerateDecision(requester, db.courses, db.users, courseId, studentId, db.enrollments, db.certificates,
                             db.progress, db.lessons) == GenIncomplete
  {
  }

  // ---------------------------------------------------------------------
  // Enrolling

  datatype EnrollOutcome = MissingCourseId | CourseNotFound | StudentsOnly | AlreadyEnrolled | EnrolledNow

  /** The checks of the enrol actions of the API and of the enrolment
      viewset: a course id is given, the course exists, and the user has no
      enrolment of any status in it. */
  function EnrollDecision(t: E.Table, courses: seq<Course>, user: User, courseId: Option<nat>): EnrollOutcome {
    if Falsy(courseId) then MissingCourseId
    else if FindCourse(courses, courseId.value).None? then CourseNotFound
    else if (user.id, courseId.value) in t then AlreadyEnrolled
    else EnrolledNow
  }

  /** A new enrolment is made exactly when the serializer's duplicate check
      would pass for an existing course; a dropped or completed student
      cannot enrol again. */
  lemma EnrollDecisionRules(t: E.Table, courses: seq<Course>, user: User, courseId: nat)
    requires courseId != 0
    ensures EnrollDecision(t, courses, user, Some(courseId)) == EnrolledNow <==>
      FindCourse(courses, courseId).Some? && E.ValidateEnrollment(t, user, Some(courseId))
    ensures (user.id, courseId) in t && FindCourse(courses, courseId).Some? ==>
      EnrollDecision(t, courses, user, Some(courseId)) == AlreadyEnrolled
  {
  }

  // ---------------------------------------------------------------------
  // Progress pages

  /** What a progress page shows: the lesson rows in order, the completion
      percentage, the quiz rows, the verdict and the certificate found. */
  datatype ProgressPage =
    | PageForbidden
    | PageNotFound
    | PageShown(lessonRows: seq<LessonRow>, percentage: real, quizRows: seq<QuizRow>,
                isCompleted: bool, certificate: Option<Certificate>)
    | StudentPageShown(lessonRows: seq<LessonRow>, percentage: real, quizRows: seq<QuizRow>,
                       certificate: Option<Certificate>)

  /** The rows of a progress page for `user` in `course`: one row per lesson
      of the course sorted by order, the percentage of completed lessons,
      and one row per quiz of the course. */
  predicate PageRows(page: ProgressPage, db: Db, user: nat, course: nat)
    requires page.PageShown? || page.StudentPageShown?
  {
    ShowsRows(page.lessonRows, page.percentage, page.quizRows, db, user, course)
  }

  predicate ShowsRows(lessonRows: seq<LessonRow>, percentage: real, quizRows: seq<QuizRow>, db: Db, user: nat, course: nat) {
    var ls := SortByOrder(CourseLessons(db.lessons, course));
    var zs := CourseAccess.CourseQuizzes(db.quizzes, course);
    |lessonRows| == |ls| && (forall i :: 0 <= i < |ls| ==> lessonRows[i] == RowFor(db.progress, user, ls[i])) &&
    percentage == Percentage(CountWith(db.progress, user, ls, Completed), |ls|) &&
    |quizRows| == |zs| && (forall i :: 0 <= i < |zs| ==> quizRows[i] == QuizRowFor(zs[i], db.questions, db.answers, user))
  }

  /** The progress pages show what the tables say: given the same lessons,
      quizzes, questions, answers and progress, they show the same rows. */
  lemma PageRowsDetermined(p1: ProgressPage, p2: ProgressPage, d1: Db, d2: Db, user: nat, course: nat)
    requires p1.PageShown? || p1.StudentPageShown?
    requires p2.PageShown? || p2.StudentPageShown?
    requires d1.lessons == d2.lessons && d1.quizzes == d2.quizzes && d1.questions == d2.questions
    requires d1.answers == d2.answers && d1.progress == d2.progress
    requires PageRows(p1, d1, user, course) && PageRows(p2, d2, user, course)
    ensures p1.lessonRows == p2.lessonRows && p1.percentage == p2.percentage && p1.quizRows == p2.quizRows
  {
  }

  /** The completion block of `course_progress`: a completed course's
      enrolment becomes completed, whatever it was. */
  function Reconcile(t: E.Table, key: (nat, nat), isCompleted: bool): (r: E.Table)
    requires key in t
    ensures r.Keys == t.Keys
    ensures isCompleted ==> r[key] == E.Completed
    ensures forall k :: k in t && (k != key || !isCompleted) ==> r[k] == t[k]
  {
    if isCompleted then t[key := E.Completed] else t
  }

  /** Reconciling again changes nothing. */
  lemma ReconcileIdempotent(t: E.Table, key: (nat, nat), isCompleted: bool)
    requires key in t
    ensures Reconcile(Reconcile(t, key, isCompleted), key, isCompleted) == Reconcile(t, key, isCompleted)
  {
  }

  /** Whether the serializer's completion block creates a certificate: the
      lessons are all completed, the enrolment exists, the pair has no
      certificate yet and the new code is free. */
  predicate SerializerIssues(completes: bool, db: Db, user: nat, course: nat, hex: string) {
    completes && (user, course) in db.enrollments && !HasCertificate(db.certificates, user, course)
    && !CodeInUse(db.certificates, NewCertificate(user, course, hex).code)
  }

  datatype Summary = Summary(courseId: nat, courseTitle: string, total: nat, completed: nat,
                             inProgress: nat, notStarted: nat, percentage: real)

  datatype SummaryOutcome = SummaryMissingId | SummaryCourseMissing | SummaryShown(summary: Summary)

  /** The counts `CourseProgressSerializer` reports for `user` in course
      `c`, over the course's lessons in table order. */
  function SummaryOf(db: Db, user: nat, c: Course): (s: Summary)
    ensures s.completed + s.inProgress + s.notStarted == s.total
    ensures s.percentage == Percentage(s.completed, s.total)
  {
    var ls := CourseLessons(db.lessons, c.id);
    CountsPartition(db.progress, user, ls);
    var done := CountWith(db.progress, user, ls, Completed);
    Summary(c.id, c.title, |ls|, done, CountWith(db.progress, user, ls, InProgress),
            CountWith(db.progress, user, ls, NotStarted), Percentage(done, |ls|))
  }

  /** The tables after the serializer has reported summary `s`: at 100% an
      existing enrolment becomes completed and, when `SerializerIssues`
      holds, a certificate and its notification are added. */
  function AfterSummary(db: Db, user: nat, c: Course, s: Summary, hex: string): Db {
    var completes := SerializerCompletes(s.completed, s.total);
    var issues := SerializerIssues(completes, db, user, c.id, hex);
    db.(enrollments := if completes && (user, c.id) in db.enrollments then db.enrollments[(user, c.id) := E.Completed]
                       else db.enrollments,
        certificates := db.certificates + (if issues then [NewCertificate(user, c.id, hex)] else []),
        notifications := db.notifications + (if issues then [CertificateNotice(user, c)] else []))
  }

  /** The summary adds at most one certificate, and only for a pair that
      had none and a code not in use; the tables stay consistent. */
  lemma AfterSummaryConsistent(db: Db, user: nat, c: Course, s: Summary, hex: string)
    requires Consistent(db)
    ensures Consistent(AfterSummary(db, user, c, s, hex))
    ensures |AfterSummary(db, user, c, s, hex).certificates| <= |db.certificates| + 1
    ensures |AfterSummary(db, user, c, s, hex).certificates| == |db.certificates| + 1 ==>
      HasCertificate(AfterSummary(db, user, c, s, hex).certificates, user, c.id)
  {
    var completes := SerializerCompletes(s.completed, s.total);
    if SerializerIssues(completes, db, user, c.id, hex) {
      AddCertificateKeepsUnique(db.certificates, NewCertificate(user, c.id, hex));
    }
  }

  // ---------------------------------------------------------------------
  // Lesson pages

  datatype LessonPage =
    | LessonNotFound
    | MustEnroll(course: nat)
    | LessonShown(lesson: Lesson, prev: Option<Lesson>, next: Option<Lesson>,
                  isInstructor: bool, isEnrolled: bool, status: Option<Status>)

  datatype CompleteOutcome = CompleteForbidden | CompleteNotFound | GoToLesson(id: nat) | GoToCourse(course: nat)

  /** The validated fields of a lesson form. */
  datatype LessonFields = LessonFields(title: string, order: int)

  datatype CreateOutcome =
    | CreateNotFound
    | CreateForbidden
    | LessonFormShown(initialOrder: int)
    | LessonFormRejected
    | LessonCreated(id: nat, notified: nat)
    | CreatedThenFailed(id: nat)

  datatype ReorderOutcome = ReorderNotFound | ReorderForbidden | ReorderFormShown | ReorderSaved | ReorderFailed(at: nat)

  /** The course's instructor or an administrator. */
  predicate Manages(user: User, c: Course) {
    c.instructor == user.id || IsAdmin(user)
  }

  /** A lesson of the table is in its course's navigation list, so the
      neighbours a page shows are those of the lesson itself. */
  lemma LessonInNavigation(ls: seq<Lesson>, l: Lesson)
    requires l in ls
    ensures l in SortByOrder(CourseLessons(ls, l.course))
  {
    var cl := CourseLessons(ls, l.course);
    assert l in multiset(cl);
    assert l in multiset(SortByOrder(cl));
  }

  /** The status of a record, if the user has one for the lesson. */
  function CurrentStatus(t: Progress.Table, user: nat, lesson: nat): (r: Option<Status>)
    ensures r.Some? <==> (user, lesson) in t
    ensures r.Some? ==> r.value == StatusOf(t, user, lesson)
  {
    if (user, lesson) in t then Some(t[(user, lesson)]) else None
  }

  /** The users to tell about a new lesson: those holding an enrolled
      enrolment in the course. */
  function LessonAudience(users: seq<User>, t: E.Table, course: nat): (r: seq<User>)
    ensures forall u :: u in r <==> u in users && E.IsEnrolled(t, u.id, course)
  {
    AdminViews.CourseRecipients(users, t, course)
  }

  // ---------------------------------------------------------------------
  // The other write endpoints

  datatype StatusOutcome = StatusNotFound | StatusInvalid | StatusSaved

  datatype RosterOutcome = RosterNotFound | RosterForbidden | RosterShown(keys: set<(nat, nat)>)

  datatype UpdateOutcome = UpdateForbidden | UpdateNotFound | BackToCourse(course: nat)

  /** The roster form stores any status text: an unknown tag is kept, and
      the student is then neither enrolled, completed nor dropped. */
  lemma RosterAcceptsAnyTag(t: E.Table, key: (nat, nat), tag: string)
    requires tag !in {"enrolled", "completed", "dropped"}
    ensures var r := t[key := E.StatusOfTag(tag)];
      r[key].OtherStatus? && r[key].tag == tag && !E.IsEnrolled(r, key.0, key.1)
  {
  }

  class Lms {
    var users: seq<User>
    var courses: seq<Course>
    var lessons: seq<Lesson>
    var quizzes: seq<Quiz>
    var questions: seq<Question>
    var answers: AnswerTable
    var progress: Progress.Table
    var enrollments: E.Table
    var certificates: seq<Certificate>
    var notifications: seq<N.Notification>

    function Snapshot(): Db
      reads this
    {
      Db(users, courses, lessons, quizzes, questions, answers, progress, enrollments, certificates, notifications)
    }

    predicate Valid()
      reads this
    {
      Consistent(Snapshot())
    }

    /** An empty database. */
    constructor ()
      ensures Valid()
      ensures Snapshot() == Db([], [], [], [], [], map[], map[], map[], [], [])
    {
      users, courses, lessons, quizzes, questions := [], [], [], [], [];
      answers, progress, enrollments := map[], map[], map[];
      certificates, notifications := [], [];
    }

    // -------------------------------------------------------------------
    // Quizzes

    /** `submit_answers`: a quiz the caller cannot see is not found; without
        an enrolled enrolment in its course the caller is refused and
        nothing changes; otherwise each item is handled in order, one entry
        per item, and only the answer table changes. */
    method SubmitAnswers(user: User, quizId: nat, items: seq<AnswerItem>) returns (outcome: SubmitOutcome)
      requires Valid()
      modifies this
      ensures Valid()
      ensures Snapshot() == old(Snapshot()).(answers := answers)
      ensures outcome == QuizNotFound <==>
        FindQuiz(quizzes, quizId).None? || !QuizVisible(user, FindQuiz(quizzes, quizId).value, courses, enrollments)
      ensures outcome == NotEnrolled <==>
        FindQuiz(quizzes, quizId).Some? && QuizVisible(user, FindQuiz(quizzes, quizId).value, courses, enrollments) &&
        !E.IsEnrolled(enrollments, user.id, FindQuiz(quizzes, quizId).value.course)
      ensures !outcome.Results? ==> answers == old(answers)
      ensures outcome.Results? ==>
        var z := FindQuiz(quizzes, quizId).value;
        |outcome.results| == |items| &&
        (forall i :: 0 <= i < |items| ==> outcome.results[i] == ItemResultFor(questions, z, items[i])) &&
        answers == AfterItems(old(answers), questions, z, user.id, items)
    {
      var found := FindQuiz(quizzes, quizId);
      if found.None? || !QuizVisible(user, found.value, courses, enrollments) {
        return QuizNotFound;
      }
      var z := found.value;
      if !E.IsEnrolled(enrollments, user.id, z.course) {
        return NotEnrolled;
      }
      var results := AnswerAll(user.id, z, items);
      outcome := Results(results);
    }

    /** The loop of `submit_answers`: one entry per item, in order, and
        the answer table `AfterItems` describes. */
    method AnswerAll(user: nat, z: Quiz, items: seq<AnswerItem>) returns (results: seq<ItemResult>)
      modifies this
      ensures |results| == |items|
      ensures forall i :: 0 <= i < |items| ==> results[i] == ItemResultFor(questions, z, items[i])
      ensures Snapshot() == old(Snapshot()).(answers := AfterItems(old(answers), questions, z, user, items))
    {
      results := [];
      var i := 0;
      while i < |items|
        invariant 0 <= i <= |items|
        invariant Snapshot() == old(Snapshot()).(answers := answers)
        invariant |results| == i
        invariant forall k :: 0 <= k < i ==> results[k] == ItemResultFor(questions, z, items[k])
        invariant answers == AfterItems(old(answers), questions, z, user, items[..i])
      {
        AfterItemsStep(old(answers), questions, z, user, items, i);
        var entry := AnswerItemOf(user, z, items[i]);
        results := results + [entry];
        i := i + 1;
      }
      assert items[..i] == items;
    }

    /** One item of `submit_answers`: the entry it reports, and the write
        of a graded item. */
    method AnswerItemOf(user: nat, z: Quiz, item: AnswerItem) returns (entry: ItemResult)
      modifies this
      ensures entry == ItemResultFor(questions, z, item)
      ensures Snapshot() == old(Snapshot()).(answers := ApplyItem(old(answers), questions, z, user, item))
    {
      if item.question.None? || FindQuestion(questions, item.question.value, z.id).None? {
        return QuestionMissing(item.question);
      }
      var q := FindQuestion(questions, item.question.value, z.id).value;
      if item.text.None? || Strip(item.text.value) == [] {
        return Rejected(q.id);
      }
      answers := SubmitAnswer(answers, q, user, Strip(item.text.value), QuizWeight(questions, q, z));
      var row := answers[(q.id, user)];
      entry := Graded(q.id, row.isCorrect, row.marks);
    }

    // -------------------------------------------------------------------
    // Certificates

    /** `CertificateViewSet.issue`: on success one certificate with a code
        from `save`, the enrolment set to completed and one notification;
        on any refusal nothing changes. No lesson-completion check. */
    method Issue(requester: User, courseId: Option<nat>, studentId: Option<nat>, hex: string) returns (outcome: IssueOutcome)
      requires Valid()
      modifies this
      ensures Valid()
      ensures outcome == IssueDecision(requester, old(Snapshot()), courseId, studentId, hex)
      ensures outcome != Issued ==> Snapshot() == old(Snapshot())
      ensures outcome == Issued ==> FindCourse(old(courses), courseId.value).Some?
      ensures outcome == Issued ==>
        var c := FindCourse(old(courses), courseId.value).value;
        Snapshot() == old(Snapshot()).(
          certificates := old(certificates) + [NewCertificate(studentId.value, c.id, hex)],
          enrollments := old(enrollments)[(studentId.value, c.id) := E.Completed],
          notifications := old(notifications) + [CertificateNotice(studentId.value, c)])
    {
      outcome := IssueDecision(requester, Snapshot(), courseId, studentId, hex);
      if outcome == Issued {
        IssueRules(requester, Snapshot(), courseId, studentId, hex);
        var c := FindCourse(courses, courseId.value).value;
        Award(studentId.value, c, NewCertificate(studentId.value, c.id, hex));
      }
    }

    /** The writes every certificate-creating endpoint makes for a pair
        without a certificate and a free code: the certificate, the
        enrolment marked completed, and one notification to the student. */
    method Award(student: nat, c: Course, cert: Certificate)
      requires Valid()
      requires cert.user == student && cert.course == c.id
      requires !CodeInUse(certificates, cert.code) && !HasCertificate(certificates, student, c.id)
      modifies this
      ensures Valid()
      ensures Snapshot() == old(Snapshot()).(
        certificates := old(certificates) + [cert],
        enrollments := old(enrollments)[(student, c.id) := E.Completed],
        notifications := old(notifications) + [CertificateNotice(student, c)])
    {
      AddCertificateKeepsUnique(certificates, cert);
      certificates := certificates + [cert];
      enrollments := enrollments[(student, c.id) := E.Completed];
      notifications := notifications + [CertificateNotice(student, c)];
    }

    /** `generate_certificate`: when the guard chain allows it, one
        certificate with the code built from the ids and `hex`, the
        enrolment set to completed and one notification; a code already in
        use fails the insert and nothing changes. */
    method GenerateCertificate(requester: User, courseId: nat, studentId: nat, hex: string)
      returns (decision: GenerateOutcome, issued: Option<Certificate>)
      requires Valid()
      modifies this
      ensures Valid()
      ensures decision == GenerateDecision(requester, old(courses), old(users), courseId, studentId,
                                           old(enrollments), old(certificates), old(progress), old(lessons))
      ensures issued.Some? <==>
        decision == GenIssue && !CodeInUse(old(certificates), GenerateCode(studentId, courseId, hex))
      ensures issued.None? ==> Snapshot() == old(Snapshot())
      ensures issued.Some? ==> FindCourse(old(courses), courseId).Some?
      ensures issued.Some? ==>
        var c := FindCourse(old(courses), courseId).value;
        issued.value == Certificate(studentId, courseId, GenerateCode(studentId, courseId, hex)) &&
        Snapshot() == old(Snapshot()).(
          certificates := old(certificates) + [issued.value],
          enrollments := old(enrollments)[(studentId, courseId) := E.Completed],
          notifications := old(notifications) + [CertificateNotice(studentId, c)])
    {
      decision := GenerateDecision(requester, courses, users, courseId, studentId, enrollments, certificates, progress, lessons);
      issued := None;
      if decision == GenIssue {
        var code := GenerateCode(studentId, courseId, hex);
        if !CodeInUse(certificates, code) {
          GenerateRules(requester, courses, users, courseId, studentId, enrollments, certificates, progress, lessons);
          var c := FindCourse(courses, courseId).value;
          var cert := SaveCode(Certificate(studentId, courseId, code), hex);
          Award(studentId, c, cert);
          issued := Some(cert);
        }
      }
    }

    // -------------------------------------------------------------------
    // Enrolments

    /** `EnrollmentViewSet.enroll` of the API: a new enrolled enrolment and
        its notification, or nothing at all. The role is not checked. */
    method ApiEnroll(user: User, courseId: Option<nat>) returns (outcome: EnrollOutcome)
      requires Valid()
      modifies this
      ensures Valid()
      ensures outcome == EnrollDecision(old(enrollments), courses, user, courseId)
      ensures outcome != EnrolledNow ==> Snapshot() == old(Snapshot())
      ensures outcome == EnrolledNow ==>
        Snapshot() == old(Snapshot()).(
          enrollments := old(enrollments)[(user.id, courseId.value) := E.Enrolled],
          notifications := old(notifications) + [EnrollmentNotice(user.id, FindCourse(courses, courseId.value).value)])
    {
      outcome := EnrollDecision(enrollments, courses, user, courseId);
      if outcome == EnrolledNow {
        var c := FindCourse(courses, courseId.value).value;
        enrollments := enrollments[(user.id, c.id) := E.DefaultStatus];
        notifications := notifications + [EnrollmentNotice(user.id, c)];
      }
    }

    /** `enroll` of the enrolment viewset: the same checks, and a new
        enrolled enrolment without any notification. */
    method Enroll(user: User, courseId: Option<nat>) returns (outcome: EnrollOutcome)
      requires Valid()
      modifies this
      ensures Valid()
      ensures outcome == EnrollDecision(old(enrollments), courses, user, courseId)
      ensures outcome != EnrolledNow ==> Snapshot() == old(Snapshot())
      ensures outcome == EnrolledNow ==>
        Snapshot() == old(Snapshot()).(enrollments := old(enrollments)[(user.id, courseId.value) := E.Enrolled])
    {
      outcome := EnrollDecision(enrollments, courses, user, courseId);
      if outcome == EnrolledNow {
        enrollments := enrollments[(user.id, courseId.value) := E.DefaultStatus];
      }
    }

    /** `enroll_course` of the course pages: students only; then the same
        checks as the API and the same enrolment and notification. */
    method EnrollCourse(user: User, courseId: nat) returns (outcome: EnrollOutcome)
      requires Valid()
      modifies this
      ensures Valid()
      ensures outcome ==
        if !IsStudent(user) then StudentsOnly
        else if FindCourse(courses, courseId).None? then CourseNotFound
        else if (user.id, courseId) in old(enrollments) then AlreadyEnrolled
        else EnrolledNow
      ensures outcome != EnrolledNow ==> Snapshot() == old(Snapshot())
      ensures outcome == EnrolledNow ==>
        Snapshot() == old(Snapshot()).(
          enrollments := old(enrollments)[(user.id, courseId) := E.Enrolled],
          notifications := old(notifications) + [EnrollmentNotice(user.id, FindCourse(courses, courseId).value)])
    {
      if !IsStudent(user) {
        return StudentsOnly;
      }
      var found := FindCourse(courses, courseId);
      if found.None? {
        return CourseNotFound;
      }
      if (user.id, courseId) in enrollments {
        return AlreadyEnrolled;
      }
      enrollments := enrollments[(user.id, courseId) := E.DefaultStatus];
      notifications := notifications + [EnrollmentNotice(user.id, found.value)];
      outcome := EnrolledNow;
    }

    /** `update_status`: an enrolment outside the caller's listing is not
        found; a status that is not one of the three choices is refused;
        otherwise the status is stored. */
    method UpdateEnrollmentStatus(requester: User, key: (nat, nat), status: Option<string>) returns (outcome: StatusOutcome)
      requires Valid()
      modifies this
      ensures Valid()
      ensures outcome == StatusNotFound <==> key !in E.VisibleEnrollments(old(enrollments), courses, requester)
      ensures outcome == StatusInvalid <==>
        key in E.VisibleEnrollments(old(enrollments), courses, requester) && (status.None? || E.ParseStatus(status.value).None?)
      ensures outcome != StatusSaved ==> Snapshot() == old(Snapshot())
      ensures outcome == StatusSaved ==>
        Snapshot() == old(Snapshot()).(enrollments := old(enrollments)[key := E.ParseStatus(status.value).value])
    {
      if key !in E.VisibleEnrollments(enrollments, courses, requester) {
        return StatusNotFound;
      }
      E.VisibleImpliesPermitted(enrollments, courses, requester, key);
      if status.None? || E.ParseStatus(status.value).None? {
        return StatusInvalid;
      }
      enrollments := enrollments[key := E.ParseStatus(status.value).value];
      outcome := StatusSaved;
    }

    /** `course_students`: the course's instructor or an administrator may
        set the status of an enrolment of the course to any text; the
        roster shown is the course's enrolments after the update. A GET
        is the request without an enrolment and a status. */
    method CourseStudents(requester: User, courseId: nat, student: Option<nat>, newStatus: Option<string>)
      returns (outcome: RosterOutcome)
      requires Valid()
      modifies this
      ensures Valid()
      ensures outcome == RosterForbidden <==>
        FindCourse(courses, courseId).Some? && FindCourse(courses, courseId).value.instructor != requester.id && !IsAdmin(requester)
      ensures outcome.RosterShown? ==> outcome.keys == E.CourseEnrollments(enrollments, courseId)
      ensures outcome.RosterShown? && student.Some? && !AdminViews.Blank(newStatus) ==>
        Snapshot() == old(Snapshot()).(enrollments := old(enrollments)[(student.value, courseId) := E.StatusOfTag(newStatus.value)])
      ensures !(outcome.RosterShown? && student.Some? && !AdminViews.Blank(newStatus)) ==> Snapshot() == old(Snapshot())
      ensures outcome == RosterNotFound <==>
        FindCourse(courses, courseId).None? ||
        (outcome != RosterForbidden && student.Some? && !AdminViews.Blank(newStatus) && (student.value, courseId) !in old(enrollments))
    {
      var found := FindCourse(courses, courseId);
      if found.None? {
        return RosterNotFound;
      }
      if found.value.instructor != requester.id && !IsAdmin(requester) {
        return RosterForbidden;
      }
      if student.Some? && !AdminViews.Blank(newStatus) {
        if (student.value, courseId) !in enrollments {
          return RosterNotFound;
        }
        enrollments := enrollments[(student.value, courseId) := E.StatusOfTag(newStatus.value)];
      }
      outcome := RosterShown(E.CourseEnrollments(enrollments, courseId));
    }

    // -------------------------------------------------------------------
    // Notifications

    /** `mark_read`: only the caller's own notification is found; it alone
        becomes read. */
    method MarkRead(user: User, id: nat) returns (found: bool)
      requires Valid()
      modifies this
      ensures Valid()
      ensures found <==> N.MarkRead(old(notifications), id, user.id).Some?
      ensures found ==> Snapshot() == old(Snapshot()).(notifications := N.MarkRead(old(notifications), id, user.id).value)
      ensures !found ==> Snapshot() == old(Snapshot())
    {
      var r := N.MarkRead(notifications, id, user.id);
      found := r.Some?;
      if found {
        notifications := r.value;
      }
    }

    /** `mark_all_read`: afterwards the caller has nothing unread and every
        other user's count is what it was. */
    method MarkAllRead(user: User)
      requires Valid()
      modifies this
      ensures Valid()
      ensures Snapshot() == old(Snapshot()).(notifications := N.MarkAllRead(old(notifications), user.id))
      ensures N.UnreadCount(notifications, user.id) == 0
      ensures forall other :: other != user.id ==> N.UnreadCount(notifications, other) == N.UnreadCount(old(notifications), other)
    {
      notifications := N.MarkAllRead(notifications, user.id);
      N.UnreadCountZero(notifications, user.id);
      forall other | other != user.id
        ensures N.UnreadCount(notifications, other) == N.UnreadCount(old(notifications), other)
      {
        N.MarkAllReadClears(old(notifications), user.id, other);
      }
    }

    /** `unread_count`: the number of the caller's unread notifications,
        zero exactly when all of them are read. */
    method UnreadCount(user: User) returns (count: nat)
      ensures count == N.UnreadCount(notifications, user.id)
      ensures count == 0 <==> forall i :: 0 <= i < |notifications| && notifications[i].user == user.id ==> notifications[i].isRead
    {
      count := N.UnreadCount(notifications, user.id);
      N.UnreadCountZero(notifications, user.id);
    }

    // -------------------------------------------------------------------
    // Progress

    /** `course_progress`: students only; the course and an enrolment of any
        status must exist. When the verdict holds the enrolment becomes
        completed, even a dropped one, and the certificate is looked up,
        never created. Nothing else changes. */
    method CourseProgress(user: User, courseId: nat) returns (page: ProgressPage)
      requires Valid()
      modifies this
      ensures Valid()
      ensures page == PageForbidden <==> !IsStudent(user)
      ensures page == PageNotFound <==>
        IsStudent(user) && (FindCourse(courses, courseId).None? || (user.id, courseId) !in old(enrollments))
      ensures !page.StudentPageShown?
      ensures !page.PageShown? ==> Snapshot() == old(Snapshot())
      ensures page.PageShown? ==>
        (user.id, courseId) in old(enrollments) &&
        PageRows(page, old(Snapshot()), user.id, courseId) &&
        page.isCompleted == IsCompleted(page.percentage, page.quizRows) &&
        page.certificate == (if page.isCompleted then FirstCertificate(certificates, user.id, courseId) else None) &&
        Snapshot() == old(Snapshot()).(enrollments := Reconcile(old(enrollments), (user.id, courseId), page.isCompleted))
    {
      if !IsStudent(user) {
        return PageForbidden;
      }
      if FindCourse(courses, courseId).None? || (user.id, courseId) !in enrollments {
        return PageNotFound;
      }
      var rows, percentage, quizRows := ReadRows(user.id, courseId);
      var isCompleted := IsCompleted(percentage, quizRows);
      ReconcileEnrollment((user.id, courseId), isCompleted);
      var certificate: Option<Certificate> := None;
      if isCompleted {
        certificate := FirstCertificate(certificates, user.id, courseId);
      }
      page := PageShown(rows, percentage, quizRows, isCompleted, certificate);
    }

    /** The rows of a progress page, read from the tables. */
    method ReadRows(user: nat, courseId: nat) returns (rows: seq<LessonRow>, percentage: real, quizRows: seq<QuizRow>)
      ensures ShowsRows(rows, percentage, quizRows, Snapshot(), user, courseId)
    {
      var ls := SortByOrder(CourseLessons(lessons, courseId));
      var completed;
      rows, completed := LessonRows(progress, user, ls);
      percentage := Percentage(completed, |ls|);
      quizRows := QuizRows(CourseAccess.CourseQuizzes(quizzes, courseId), questions, answers, user);
    }

    /** The enrolment update of `course_progress`: a completed verdict marks
        the enrolment completed, whatever its status was. */
    method ReconcileEnrollment(key: (nat, nat), isCompleted: bool)
      requires Valid() && key in enrollments
      modifies this
      ensures Valid()
      ensures Snapshot() == old(Snapshot()).(enrollments := Reconcile(old(enrollments), key, isCompleted))
    {
      if isCompleted {
        if enrollments[key] != E.Completed {
          enrollments := enrollments[key := E.Completed];
        } else {
          assert enrollments == enrollments[key := E.Completed];
        }
      }
    }

    /** Visiting the progress page a second time shows the same page and
        changes nothing more than the first visit did. */
    method CourseProgressTwice(user: User, courseId: nat) returns (first: ProgressPage, second: ProgressPage)
      requires Valid()
      modifies this
      ensures Valid()
      ensures second == first
      ensures !first.PageShown? ==> Snapshot() == old(Snapshot())
      ensures first.PageShown? ==>
        (user.id, courseId) in old(enrollments) &&
        Snapshot() == old(Snapshot()).(enrollments := Reconcile(old(enrollments), (user.id, courseId), first.isCompleted))
    {
      first := CourseProgress(user, courseId);
      ghost var mid := Snapshot();
      second := CourseProgress(user, courseId);
      if first.PageShown? {
        PageRowsDetermined(first, second, old(Snapshot()), mid, user.id, courseId);
        ReconcileIdempotent(old(enrollments), (user.id, courseId), first.isCompleted);
      }
    }

    /** `student_progress`: a teacher or administrator, who must be the
        course's instructor unless an administrator, sees the progress of a
        student (a user with the student role) holding an enrolment of any
        status. Read-only. */
    method StudentProgress(requester: User, studentId: nat, courseId: nat) returns (page: ProgressPage)
      ensures page == PageForbidden <==>
        (!IsTeacher(requester) && !IsAdmin(requester)) ||
        (FindCourse(courses, courseId).Some? && FindCourse(courses, courseId).value.instructor != requester.id && !IsAdmin(requester))
      ensures page == PageNotFound <==>
        (IsTeacher(requester) || IsAdmin(requester)) &&
        (FindCourse(courses, courseId).None? ||
         (Manages(requester, FindCourse(courses, courseId).value) &&
          (FindUser(users, studentId).None? || !IsStudent(FindUser(users, studentId).value) || (studentId, courseId) !in enrollments)))
      ensures !page.PageShown?
      ensures page.StudentPageShown? ==>
        PageRows(page, Snapshot(), studentId, courseId) &&
        page.certificate == FirstCertificate(certificates, studentId, courseId)
    {
      if !IsTeacher(requester) && !IsAdmin(requester) {
        return PageForbidden;
      }
      var found := FindCourse(courses, courseId);
      if found.None? {
        return PageNotFound;
      }
      if found.value.instructor != requester.id && !IsAdmin(requester) {
        return PageForbidden;
      }
      var student := FindUser(users, studentId);
      if student.None? || !IsStudent(student.value) || (studentId, courseId) !in enrollments {
        return PageNotFound;
      }
      var rows, percentage, quizRows := ReadRows(studentId, courseId);
      page := StudentPageShown(rows, percentage, quizRows, FirstCertificate(certificates, studentId, courseId));
    }

    /** `update_progress`: students only; the record must be the caller's
        own and its lesson's course must hold the caller's enrolled
        enrolment. A posted status that is one of the three is stored; any
        other value, or a plain visit, changes nothing. */
    method UpdateProgress(user: User, lesson: nat, isPost: bool, status: Option<string>) returns (outcome: UpdateOutcome)
      requires Valid()
      modifies this
      ensures Valid()
      ensures outcome == UpdateForbidden <==> !IsStudent(user)
      ensures outcome == UpdateNotFound <==>
        (IsStudent(user) &&
         ((user.id, lesson) !in old(progress) || FindLesson(lessons, lesson).None? ||
          !E.IsEnrolled(enrollments, user.id, FindLesson(lessons, lesson).value.course)))
      ensures outcome.BackToCourse? ==> FindLesson(lessons, lesson).Some? && outcome.course == FindLesson(lessons, lesson).value.course
      ensures outcome.BackToCourse? && isPost && status.Some? && Progress.ParseStatus(status.value).Some? ==>
        Snapshot() == old(Snapshot()).(progress := old(progress)[(user.id, lesson) := Progress.ParseStatus(status.value).value])
      ensures !(outcome.BackToCourse? && isPost && status.Some? && Progress.ParseStatus(status.value).Some?) ==>
        Snapshot() == old(Snapshot())
    {
      if !IsStudent(user) {
        return UpdateForbidden;
      }
      if (user.id, lesson) !in progress || FindLesson(lessons, lesson).None? {
        return UpdateNotFound;
      }
      var course := FindLesson(lessons, lesson).value.course;
      if !E.IsEnrolled(enrollments, user.id, course) {
        return UpdateNotFound;
      }
      if isPost && status.Some? && Progress.ParseStatus(status.value).Some? {
        progress := progress[(user.id, lesson) := Progress.ParseStatus(status.value).value];
      }
      outcome := BackToCourse(course);
    }

    /** `ProgressSerializer.create` for a lesson of the table: the record
        is created or updated as `UpsertProgress` says. */
    method CreateProgress(user: User, lesson: nat, given: Option<Status>) returns (saved: bool)
      requires Valid()
      modifies this
      ensures Valid()
      ensures saved <==> FindLesson(lessons, lesson).Some?
      ensures saved ==> Snapshot() == old(Snapshot()).(progress := UpsertProgress(old(progress), user.id, lesson, given))
      ensures !saved ==> Snapshot() == old(Snapshot())
    {
      saved := FindLesson(lessons, lesson).Some?;
      if saved {
        progress := UpsertProgress(progress, user.id, lesson, given);
      }
    }

    /** `course_progress` of the API and `CourseProgressSerializer`: the
        lesson counts of the course for the caller. At 100% the enrolment,
        if there is one, becomes completed, and a pair without a
        certificate gets one with its notification; a missing enrolment or
        a code already in use is swallowed. */
    method ProgressSummary(user: User, courseId: Option<nat>, hex: string) returns (outcome: SummaryOutcome)
      requires Valid()
      modifies this
      ensures Valid()
      ensures outcome == SummaryMissingId <==> courseId.None?
      ensures outcome == SummaryCourseMissing <==> courseId.Some? && FindCourse(courses, courseId.value).None?
      ensures !outcome.SummaryShown? ==> Snapshot() == old(Snapshot())
      ensures outcome.SummaryShown? ==>
        FindCourse(courses, courseId.value).Some? &&
        outcome.summary == SummaryOf(old(Snapshot()), user.id, FindCourse(courses, courseId.value).value) &&
        Snapshot() == AfterSummary(old(Snapshot()), user.id, FindCourse(courses, courseId.value).value, outcome.summary, hex)
    {
      if courseId.None? {
        return SummaryMissingId;
      }
      var c := courseId.value;
      var found := FindCourse(courses, c);
      if found.None? {
        return SummaryCourseMissing;
      }
      var ls := CourseLessons(lessons, c);
      var completed, inProgress, notStarted := CountStatuses(progress, user.id, ls);
      var percentage := Percentage(completed, |ls|);
      var summary := Summary(c, found.value.title, |ls|, completed, inProgress, notStarted, percentage);
      CompleteFromSummary(user.id, found.value, summary, hex);
      outcome := SummaryShown(summary);
    }

    /** The completion block of `CourseProgressSerializer`. */
    method CompleteFromSummary(user: nat, c: Course, summary: Summary, hex: string)
      requires Valid()
      modifies this
      ensures Valid()
      ensures Snapshot() == AfterSummary(old(Snapshot()), user, c, summary, hex)
    {
      var completes := SerializerCompletes(summary.completed, summary.total);
      if SerializerIssues(completes, Snapshot(), user, c.id, hex) {
        Award(user, c, NewCertificate(user, c.id, hex));
      } else {
        if completes && (user, c.id) in enrollments {
          enrollments := enrollments[(user, c.id) := E.Completed];
        }
        assert certificates == old(certificates) + [];
        assert notifications == old(notifications) + [];
      }
    }

    /** Asking for the summary twice creates at most one certificate and
        one notification, whatever random values the two calls draw. */
    method ProgressSummaryTwice(user: User, courseId: Option<nat>, hex1: string, hex2: string)
      returns (first: SummaryOutcome, second: SummaryOutcome)
      requires Valid()
      modifies this
      ensures Valid()
      ensures second == first
      ensures |certificates| <= |old(certificates)| + 1
      ensures |notifications| <= |old(notifications)| + 1
    {
      first := ProgressSummary(user, courseId, hex1);
      if first.SummaryShown? {
        AfterSummaryConsistent(old(Snapshot()), user.id, FindCourse(courses, courseId.value).value, first.summary, hex1);
      }
      second := ProgressSummary(user, courseId, hex2);
    }

    // -------------------------------------------------------------------
    // Lessons

    /** `lesson_detail`: an enrolled view by a student who does not manage
        the course moves the record as `ViewedStatus` says; a student
        without an enrolled enrolment is sent to the course page and
        nothing is created. The page carries the neighbours in the
        order-sorted lesson list and, for students, the lesson's status. */
    method LessonDetail(user: User, lessonId: nat) returns (page: LessonPage)
      requires Valid()
      modifies this
      ensures Valid()
      ensures page == LessonNotFound <==> FindLesson(lessons, lessonId).None?
      ensures page.MustEnroll? <==>
        FindLesson(lessons, lessonId).Some? &&
        var l := FindLesson(lessons, lessonId).value;
        !(user.id == E.InstructorOf(courses, l.course) || IsAdmin(user)) && IsStudent(user) &&
        !E.IsEnrolled(enrollments, user.id, l.course)
      ensures page.MustEnroll? ==> page.course == FindLesson(lessons, lessonId).value.course
      ensures page.LessonShown? ==> FindLesson(lessons, lessonId) == Some(page.lesson)
      ensures page.LessonShown? ==>
        page.isInstructor == (user.id == E.InstructorOf(courses, page.lesson.course) || IsAdmin(user)) &&
        page.isEnrolled == (!page.isInstructor && IsStudent(user))
      ensures page.LessonShown? ==>
        page.lesson in SortByOrder(CourseLessons(lessons, page.lesson.course)) &&
        Adjacent(SortByOrder(CourseLessons(lessons, page.lesson.course)), lessonId, page.prev, page.next)
      ensures page.LessonShown? ==>
        page.status == (if IsStudent(user) then Some(StatusOf(progress, user.id, lessonId)) else None)
      ensures page.LessonShown? && page.isEnrolled ==>
        Snapshot() == old(Snapshot()).(
          progress := old(progress)[(user.id, lessonId) := ViewedStatus(CurrentStatus(old(progress), user.id, lessonId))])
      ensures !(page.LessonShown? && page.isEnrolled) ==> Snapshot() == old(Snapshot())
    {
      var found := FindLesson(lessons, lessonId);
      if found.None? {
        return LessonNotFound;
      }
      var l := found.value;
      var isInstructor := user.id == E.InstructorOf(courses, l.course) || IsAdmin(user);
      var isEnrolled := false;
      if !isInstructor && IsStudent(user) {
        if !E.IsEnrolled(enrollments, user.id, l.course) {
          return MustEnroll(l.course);
        }
        isEnrolled := true;
      }
      NavigationDistinct(lessons, l.course);
      LessonInNavigation(lessons, l);
      var prev, next := Neighbours(SortByOrder(CourseLessons(lessons, l.course)), lessonId);
      if isEnrolled {
        RecordView(user.id, lessonId);
      }
      var status: Option<Status> := None;
      if IsStudent(user) {
        status := Some(StatusOf(progress, user.id, lessonId));
      }
      page := LessonShown(l, prev, next, isInstructor, isEnrolled, status);
    }

    /** The record of a viewed lesson moves as `ViewedStatus` says. */
    method RecordView(user: nat, lessonId: nat)
      requires Valid()
      modifies this
      ensures Valid()
      ensures Snapshot() == old(Snapshot()).(
        progress := old(progress)[(user, lessonId) := ViewedStatus(CurrentStatus(old(progress), user, lessonId))])
    {
      progress := progress[(user, lessonId) := ViewedStatus(CurrentStatus(progress, user, lessonId))];
    }

    /** `mark_lesson_complete`: students only; the lesson must exist and its
        course hold the caller's enrolled enrolment. The record becomes
        completed whether or not it existed, and the student is sent to the
        next lesson of the course by order, or to the course page after the
        last one. */
    method MarkLessonComplete(user: User, lessonId: nat) returns (outcome: CompleteOutcome)
      requires Valid()
      modifies this
      ensures Valid()
      ensures outcome == CompleteForbidden <==> !IsStudent(user)
      ensures outcome == CompleteNotFound <==>
        IsStudent(user) &&
        (FindLesson(lessons, lessonId).None? || !E.IsEnrolled(enrollments, user.id, FindLesson(lessons, lessonId).value.course))
      ensures outcome == CompleteForbidden || outcome == CompleteNotFound ==> Snapshot() == old(Snapshot())
      ensures outcome.GoToLesson? || outcome.GoToCourse? ==>
        FindLesson(lessons, lessonId).Some? &&
        var l := FindLesson(lessons, lessonId).value;
        Snapshot() == old(Snapshot()).(progress := old(progress)[(user.id, lessonId) := Completed]) &&
        outcome == match NextLessonAfter(lessons, l.course, l.order)
                   case Some(n) => GoToLesson(n.id)
                   case None => GoToCourse(l.course)
    {
      if !IsStudent(user) {
        return CompleteForbidden;
      }
      var found := FindLesson(lessons, lessonId);
      if found.None? || !E.IsEnrolled(enrollments, user.id, found.value.course) {
        return CompleteNotFound;
      }
      var l := found.value;
      progress := UpsertProgress(progress, user.id, lessonId, Some(Completed));
      assert progress == old(progress)[(user.id, lessonId) := Completed];
      match NextLessonAfter(lessons, l.course, l.order)
      case Some(n) => outcome := GoToLesson(n.id);
      case None => outcome := GoToCourse(l.course);
    }

    /** `form.save()` of `create_lesson`: a lesson of the course, with a
        fresh id, at the end of the table. */
    method AddLesson(courseId: nat, form: LessonFields) returns (id: nat)
      requires Valid()
      modifies this
      ensures Valid()
      ensures id == NewLessonId(old(lessons))
      ensures Snapshot() == old(Snapshot()).(lessons := old(lessons) + [Lesson(id, courseId, form.title, form.order)])
    {
      id := NewLessonId(lessons);
      var l := Lesson(id, courseId, form.title, form.order);
      AppendKeepsDistinct(lessons, l);
      lessons := lessons + [l];
    }

    /** `create_lesson` as written: the course's manager gets a form whose
        order starts at `NextOrder`; a valid post saves the lesson, and the
        view then fails on the unimported `User` before any notification is
        made. */
    method CreateLesson(user: User, courseId: nat, isPost: bool, form: Option<LessonFields>) returns (outcome: CreateOutcome)
      requires Valid()
      modifies this
      ensures Valid()
      ensures outcome == CreateNotFound <==> FindCourse(courses, courseId).None?
      ensures outcome == CreateForbidden <==>
        FindCourse(courses, courseId).Some? && !Manages(user, FindCourse(courses, courseId).value)
      ensures outcome.LessonFormShown? ==> !isPost && outcome.initialOrder == NextOrder(old(lessons), courseId)
      ensures outcome == LessonFormRejected ==> isPost && form.None?
      ensures outcome.CreatedThenFailed? <==>
        FindCourse(courses, courseId).Some? && Manages(user, FindCourse(courses, courseId).value) && isPost && form.Some?
      ensures !outcome.LessonCreated?
      ensures outcome.CreatedThenFailed? ==>
        outcome.id == NewLessonId(old(lessons)) &&
        Snapshot() == old(Snapshot()).(lessons := old(lessons) + [Lesson(outcome.id, courseId, form.value.title, form.value.order)])
      ensures !outcome.CreatedThenFailed? ==> Snapshot() == old(Snapshot())
    {
      var found := FindCourse(courses, courseId);
      if found.None? {
        return CreateNotFound;
      }
      if !Manages(user, found.value) {
        return CreateForbidden;
      }
      var nextOrder := NextOrder(lessons, courseId);
      if !isPost {
        return LessonFormShown(nextOrder);
      }
      if form.None? {
        return LessonFormRejected;
      }
      var id := AddLesson(courseId, form.value);
      outcome := CreatedThenFailed(id);
    }

    /** `create_lesson` as it is evidently meant to run: after the lesson
        is saved, every user holding an enrolled enrolment in the course
        gets one unread lesson-added notification. */
    method CreateLessonNotifying(user: User, courseId: nat, isPost: bool, form: Option<LessonFields>)
      returns (outcome: CreateOutcome)
      requires Valid()
      modifies this
      ensures Valid()
      ensures outcome == CreateNotFound <==> FindCourse(courses, courseId).None?
      ensures outcome == CreateForbidden <==>
        FindCourse(courses, courseId).Some? && !Manages(user, FindCourse(courses, courseId).value)
      ensures outcome.LessonFormShown? ==> !isPost && outcome.initialOrder == NextOrder(old(lessons), courseId)
      ensures outcome == LessonFormRejected ==> isPost && form.None?
      ensures outcome.LessonCreated? <==>
        FindCourse(courses, courseId).Some? && Manages(user, FindCourse(courses, courseId).value) && isPost && form.Some?
      ensures !outcome.CreatedThenFailed?
      ensures outcome.LessonCreated? ==>
        var c := FindCourse(courses, courseId).value;
        var audience := LessonAudience(users, enrollments, courseId);
        outcome.id == NewLessonId(old(lessons)) && outcome.notified == |audience| &&
        Snapshot() == old(Snapshot()).(
          lessons := old(lessons) + [Lesson(outcome.id, courseId, form.value.title, form.value.order)],
          notifications := old(notifications) +
            AdminViews.Announcements(audience, "New Lesson: " + form.value.title,
                                     "A new lesson has been added to the course " + c.title + ".", N.LessonAdded))
      ensures !outcome.LessonCreated? ==> Snapshot() == old(Snapshot())
    {
      var found := FindCourse(courses, courseId);
      if found.None? {
        return CreateNotFound;
      }
      if !Manages(user, found.value) {
        return CreateForbidden;
      }
      var nextOrder := NextOrder(lessons, courseId);
      if !isPost {
        return LessonFormShown(nextOrder);
      }
      if form.None? {
        return LessonFormRejected;
      }
      var id := AddLesson(courseId, form.value);
      var out, count := AdminViews.FanOut(notifications, LessonAudience(users, enrollments, courseId),
                                          "New Lesson: " + form.value.title,
                                          "A new lesson has been added to the course " + found.value.title + ".",
                                          N.LessonAdded);
      notifications := out;
      outcome := LessonCreated(id, count);
    }

    /** `reorder_lessons`: the course's manager posts (lesson id, order)
        pairs, applied in order to any lesson of the table, not only the
        course's; at the first id that names no lesson the view fails, and
        the orders already assigned stay. */
    method ReorderLessons(user: User, courseId: nat, isPost: bool, pairs: Option<seq<(nat, int)>>)
      returns (outcome: ReorderOutcome)
      requires Valid()
      modifies this
      ensures Valid()
      ensures outcome == ReorderNotFound <==> FindCourse(courses, courseId).None?
      ensures outcome == ReorderForbidden <==>
        FindCourse(courses, courseId).Some? && !Manages(user, FindCourse(courses, courseId).value)
      ensures outcome == ReorderFormShown ==> !isPost || pairs.None?
      ensures (outcome == ReorderSaved || outcome.ReorderFailed?) <==>
        FindCourse(courses, courseId).Some? && Manages(user, FindCourse(courses, courseId).value) && isPost && pairs.Some?
      ensures outcome == ReorderSaved ==> FoundPrefix(old(lessons), pairs.value) == |pairs.value|
      ensures outcome.ReorderFailed? ==> outcome.at == FoundPrefix(old(lessons), pairs.value) < |pairs.value|
      ensures outcome == ReorderSaved || outcome.ReorderFailed? ==>
        Snapshot() == old(Snapshot()).(lessons := Reordered(old(lessons), pairs.value[..FoundPrefix(old(lessons), pairs.value)]))
      ensures !(outcome == ReorderSaved || outcome.ReorderFailed?) ==> Snapshot() == old(Snapshot())
    {
      var found := FindCourse(courses, courseId);
      if found.None? {
        return ReorderNotFound;
      }
      if !Manages(user, found.value) {
        return ReorderForbidden;
      }
      if !isPost || pairs.None? {
        return ReorderFormShown;
      }
      var n := ApplyOrders(pairs.value);
      if n < |pairs.value| {
        outcome := ReorderFailed(n);
      } else {
        outcome := ReorderSaved;
      }
    }

    /** The loop of `reorder_lessons`: each pair sets the order of the
        lesson with its id, until an id names no lesson; returns how many
        pairs were applied. */
    method ApplyOrders(ps: seq<(nat, int)>) returns (n: nat)
      requires Valid()
      modifies this
      ensures Valid()
      ensures n == FoundPrefix(old(lessons), ps)
      ensures Snapshot() == old(Snapshot()).(lessons := Reordered(old(lessons), ps[..n]))
    {
      var r;
      r, n := ApplyOrderPairs(lessons, ps);
      SameIdsFind(lessons, r, 0);
      lessons := r;
    }

    // -------------------------------------------------------------------
    // Administration

    /** `delete_user` behind the administrators' gate: the user row goes
        only on a confirmed request for another existing user. */
    method DeleteUser(requester: User, userId: nat, isPost: bool) returns (outcome: Option<AdminViews.DeleteOutcome>)
      requires Valid()
      modifies this
      ensures Valid()
      ensures outcome.None? <==> !IsAdmin(requester)
      ensures outcome.Some? ==> outcome.value == AdminViews.DeleteDecision(requester, old(users), userId, isPost)
      ensures outcome == Some(AdminViews.Deleted) ==> Snapshot() == old(Snapshot()).(users := AdminViews.RemoveUser(old(users), userId))
      ensures outcome != Some(AdminViews.Deleted) ==> Snapshot() == old(Snapshot())
    {
      if !AdminViews.AdminGate(Some(requester)) {
        return None;
      }
      var d := AdminViews.DeleteDecision(requester, users, userId, isPost);
      if d == AdminViews.Deleted {
        users := AdminViews.RemoveUser(users, userId);
      }
      outcome := Some(d);
    }

    /** `send_notification` behind the administrators' gate: the chosen
        recipients each get one notification, or nothing is created. */
    method SendNotification(requester: User, ntype: Option<string>, title: Option<string>, message: Option<string>,
                            recipientType: Option<string>, courseId: Option<string>)
      returns (outcome: Option<AdminViews.SendOutcome>)
      requires Valid()
      modifies this
      ensures Valid()
      ensures outcome.None? <==> !IsAdmin(requester)
      ensures outcome.None? ==> Snapshot() == old(Snapshot())
      ensures outcome.Some? ==>
        match AdminViews.SelectRecipients(users, enrollments, title, message, recipientType, courseId)
        case Err(e) => outcome.value == AdminViews.SendRefused(e) && Snapshot() == old(Snapshot())
        case Ok(rs) =>
          outcome.value == AdminViews.Sent(|rs|) &&
          Snapshot() == old(Snapshot()).(
            notifications := old(notifications) + AdminViews.Announcements(rs, title.value, message.value, AdminViews.SentType(ntype)))
    {
      if !AdminViews.AdminGate(Some(requester)) {
        return None;
      }
      var out, o := AdminViews.SendNotification(notifications, users, enrollments, ntype, title, message, recipientType, courseId);
      notifications := out;
      outcome := Some(o);
    }
  }
}
