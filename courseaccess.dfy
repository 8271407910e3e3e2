/**
 * Course-level access and reporting: the `IsEnrolledOrInstructor` object
 * permission, what the course page shows a student, the course statistics
 * page (enrolment, lesson and quiz figures) and the aggregates of the
 * course statistics serializer.
 */
module CourseAccess {
  import opened Wrappers
  import opened Accounts
  import opened Courses
  import E = Enrollments
  import opened Lessons
  import opened Quizzes
  import opened Progress
  import QuizStats

  /** `IsEnrolledOrInstructor.has_object_permission` on course `c`, for a
      request user that may be anonymous (`None`). */
  function IsEnrolledOrInstructor(user: Option<User>, c: Course, t: E.Table): (r: bool)
    ensures user.None? ==> !r
    ensures user.Some? && IsAdmin(user.value) ==> r
    ensures user.Some? && IsTeacher(user.value) ==> (r <==> c.instructor == user.value.id)
    ensures user.Some? && IsStudent(user.value) ==> (r <==> E.IsEnrolled(t, user.value.id, c.id))
  {
    match user
    case None => false
    case Some(u) =>
      if IsAdmin(u) then true
      else if IsTeacher(u) && c.instructor == u.id then true
      else if IsStudent(u) then E.IsEnrolled(t, u.id, c.id)
      else false
  }

  /** A student with a completed or dropped enrolment is refused, exactly
      like one with no enrolment. */
  lemma FormerStudentsRefused(u: User, c: Course, t: E.Table)
    requires IsStudent(u) && (u.id, c.id) in t && t[(u.id, c.id)] != E.Enrolled
    ensures !IsEnrolledOrInstructor(Some(u), c, t)
  {
  }

  /** The quizzes of a course, in table order. */
  function CourseQuizzes(quizzes: seq<Quiz>, course: nat): (r: seq<Quiz>)
    ensures forall z :: z in r <==> z in quizzes && z.course == course
  {
    if quizzes == [] then []
    else (if quizzes[0].course == course then [quizzes[0]] else []) + CourseQuizzes(quizzes[1..], course)
  }

  /** `course_detail`: only a student whose enrolment is enrolled gets the
      lesson list with statuses (sorted by order) and the quiz list with
      status and score; anyone else gets neither. */
  method CourseDetail(user: User, c: Course, enrollments: E.Table, progress: Progress.Table,
                      lessons: seq<Lesson>, quizzes: seq<Quiz>, questions: seq<Question>, answers: AnswerTable)
    returns (isEnrolled: bool, lessonRows: seq<LessonRow>, quizRows: seq<QuizRow>)
    ensures isEnrolled <==> IsStudent(user) && E.IsEnrolled(enrollments, user.id, c.id)
    ensures !isEnrolled ==> lessonRows == [] && quizRows == []
    ensures isEnrolled ==>
      var ls := SortByOrder(CourseLessons(lessons, c.id));
      |lessonRows| == |ls| && forall i :: 0 <= i < |ls| ==> lessonRows[i] == RowFor(progress, user.id, ls[i])
    ensures isEnrolled ==>
      var zs := CourseQuizzes(quizzes, c.id);
      |quizRows| == |zs| && forall i :: 0 <= i < |zs| ==> quizRows[i] == QuizRowFor(zs[i], questions, answers, user.id)
  {
    isEnrolled := IsStudent(user) && E.IsEnrolled(enrollments, user.id, c.id);
    lessonRows, quizRows := [], [];
    if isEnrolled {
      var completed;
      lessonRows, completed := LessonRows(progress, user.id, SortByOrder(CourseLessons(lessons, c.id)));
      quizRows := QuizRows(CourseQuizzes(quizzes, c.id), questions, answers, user.id);
    }
  }

  // ---------------------------------------------------------------------
  // The course statistics page

  datatype EnrollmentStats = EnrollmentStats(total: nat, active: nat, completed: nat, dropped: nat)

  /** The enrolment figures of a course: all its enrolments and those
      enrolled, completed and dropped. The three parts add up to the total
      exactly when no enrolment carries another status tag. */
  function EnrollmentStatsOf(t: E.Table, course: nat): (s: EnrollmentStats)
    ensures s.total == |E.CourseEnrollments(t, course)|
    ensures s.active + s.completed + s.dropped <= s.total
    ensures s.active + s.completed + s.dropped == s.total <==>
      forall k :: k in t && k.1 == course ==> !t[k].OtherStatus?
  {
    E.EnrollmentCountPartition(t, course);
    var other := set k | k in t && k.1 == course && t[k].OtherStatus?;
    assert other == {} <==> forall k :: k in t && k.1 == course ==> !t[k].OtherStatus? by {
      if exists k :: k in t && k.1 == course && t[k].OtherStatus? {
        var k :| k in t && k.1 == course && t[k].OtherStatus?;
        assert k in other;
      }
    }
    EnrollmentStats(|E.CourseEnrollments(t, course)|,
                    |E.CourseEnrollmentsWith(t, course, E.Enrolled)|,
                    |E.CourseEnrollmentsWith(t, course, E.Completed)|,
                    |E.CourseEnrollmentsWith(t, course, E.Dropped)|)
  }

  /** The progress records of a lesson, of every user, with status `s`. */
  function RecordsWith(p: Progress.Table, lesson: nat, s: Status): set<(nat, nat)> {
    set k | k in p && k.1 == lesson && p[k] == s
  }

  /** The progress records of a lesson, of every user. */
  function Records(p: Progress.Table, lesson: nat): set<(nat, nat)> {
    set k | k in p && k.1 == lesson
  }

  datatype LessonStat = LessonStat(lesson: nat, notStarted: nat, inProgress: nat, completed: nat, completionRate: real)

  /** One lesson's figures: its records split by status, which together are
      all its records, and the completion rate, a percentage that is 0 for a
      lesson without records and 100 exactly when it has records and all of
      them are completed. */
  function LessonStatOf(p: Progress.Table, l: Lesson): (r: LessonStat)
    ensures r.lesson == l.id
    ensures r.completed == |RecordsWith(p, l.id, Completed)|
    ensures r.notStarted + r.inProgress + r.completed == |Records(p, l.id)|
    ensures 0.0 <= r.completionRate <= 100.0
    ensures Records(p, l.id) == {} ==> r.completionRate == 0.0
    ensures r.completionRate == 100.0 <==>
      Records(p, l.id) != {} && forall k :: k in Records(p, l.id) ==> p[k] == Completed
  {
    var n := RecordsWith(p, l.id, NotStarted);
    var i := RecordsWith(p, l.id, InProgress);
    var c := RecordsWith(p, l.id, Completed);
    RecordsPartition(p, l.id);
    var total := |n| + |i| + |c|;
    PercentageBounds(|c|, total);
    LessonStat(l.id, |n|, |i|, |c|, Percentage(|c|, total))
  }

  /** A lesson's records split by status; all of them are completed
      exactly when the completed ones are as many as the records. */
  lemma RecordsPartition(p: Progress.Table, lesson: nat)
    ensures |Records(p, lesson)| ==
      |RecordsWith(p, lesson, NotStarted)| + |RecordsWith(p, lesson, InProgress)| + |RecordsWith(p, lesson, Completed)|
    ensures (Records(p, lesson) != {} && forall k :: k in Records(p, lesson) ==> p[k] == Completed) <==>
      |Records(p, lesson)| > 0 && |RecordsWith(p, lesson, Completed)| == |Records(p, lesson)|
  {
    var n := RecordsWith(p, lesson, NotStarted);
    var i := RecordsWith(p, lesson, InProgress);
    var c := RecordsWith(p, lesson, Completed);
    assert Records(p, lesson) == n + i + c;
    assert n * i == {};
    assert |n + i| == |n| + |i|;
    assert (n + i) * c == {};
    assert |n + i + c| == |n + i| + |c|;
    if |c| == |Records(p, lesson)| {
      assert |n + i| == 0;
      assert n + i == {};
    }
    if Records(p, lesson) != {} && forall k :: k in Records(p, lesson) ==> p[k] == Completed {
      assert n + i == {};
    }
  }

  /** The lesson loop of the statistics page: one row per lesson, in order. */
  method LessonStats(p: Progress.Table, lessons: seq<Lesson>) returns (rows: seq<LessonStat>)
    ensures |rows| == |lessons|
    ensures forall i :: 0 <= i < |lessons| ==> rows[i] == LessonStatOf(p, lessons[i])
  {
    rows := [];
    var i := 0;
    while i < |lessons|
      invariant 0 <= i <= |lessons|
      invariant |rows| == i
      invariant forall k :: 0 <= k < i ==> rows[k] == LessonStatOf(p, lessons[k])
    {
      rows := rows + [LessonStatOf(p, lessons[i])];
      i := i + 1;
    }
  }

  /** `userIds` is the users table's id column: each id once, and the user
      of every answer among them (an answer's user is a foreign key). */
  predicate AnswerUsersListed(userIds: seq<nat>, answers: AnswerTable) {
    Distinct(userIds) && forall k :: k in answers ==> k.1 in userIds
  }

  /** Likewise for the users of the enrolment table. */
  predicate EnrolmentUsersListed(userIds: seq<nat>, t: E.Table) {
    Distinct(userIds) && forall k :: k in t ==> k.0 in userIds
  }

  /** The users of `userIds` who answered some question of `qs`, in order. */
  function Answerers(userIds: seq<nat>, answers: AnswerTable, qs: seq<Question>): (r: seq<nat>)
    ensures forall u :: u in r <==> u in userIds && AnsweredCount(answers, u, qs) > 0
  {
    if userIds == [] then []
    else (if AnsweredCount(answers, userIds[0], qs) > 0 then [userIds[0]] else []) + Answerers(userIds[1..], answers, qs)
  }

  /** A user answered some question of `qs` exactly when they are one of
      the quiz's attempters, so `Answerers` lists the attempters the users
      table holds. */
  lemma {:induction false} AnsweredIffAttempter(answers: AnswerTable, u: nat, qs: seq<Question>)
    ensures AnsweredCount(answers, u, qs) > 0 <==> u in QuizStats.Attempters(answers, qs)
  {
    if qs != [] {
      AnsweredIffAttempter(answers, u, qs[1..]);
      if (qs[0].id, u) in answers {
        assert u in QuizStats.Attempters(answers, qs);
      }
      if u in QuizStats.Attempters(answers, qs) {
        var k :| k in answers && k.1 == u && exists i :: 0 <= i < |qs| && qs[i].id == k.0;
        var i :| 0 <= i < |qs| && qs[i].id == k.0;
        if i > 0 {
          assert qs[1..][i - 1] == qs[i];
          assert u in QuizStats.Attempters(answers, qs[1..]);
        }
      }
    } else {
      assert QuizStats.Attempters(answers, qs) == {};
    }
  }

  lemma {:induction false} AnswerersDistinct(userIds: seq<nat>, answers: AnswerTable, qs: seq<Question>)
    requires Distinct(userIds)
    ensures Distinct(Answerers(userIds, answers, qs))
  {
    if userIds != [] {
      Wrappers.DistinctSuffix(userIds);
      AnswerersDistinct(userIds[1..], answers, qs);
      if AnsweredCount(answers, userIds[0], qs) > 0 {
        DistinctPrepend(userIds[0], Answerers(userIds[1..], answers, qs));
      }
    }
  }

  /** Over the users table, `Answerers` lists every attempter of the quiz
      exactly once: the users who answered, as `values('user').distinct()`
      yields them. */
  lemma AnswerersAreAttempters(userIds: seq<nat>, answers: AnswerTable, qs: seq<Question>)
    requires AnswerUsersListed(userIds, answers)
    ensures Distinct(Answerers(userIds, answers, qs))
    ensures forall u :: u in Answerers(userIds, answers, qs) <==> u in QuizStats.Attempters(answers, qs)
    ensures |Answerers(userIds, answers, qs)| == |QuizStats.Attempters(answers, qs)|
  {
    var us := Answerers(userIds, answers, qs);
    AnswerersDistinct(userIds, answers, qs);
    forall u ensures u in us <==> u in QuizStats.Attempters(answers, qs) {
      AnsweredIffAttempter(answers, u, qs);
      if u in QuizStats.Attempters(answers, qs) {
        var k :| k in answers && k.1 == u && exists i :: 0 <= i < |qs| && qs[i].id == k.0;
        assert u in userIds;
      }
    }
    DistinctCard(us);
    assert Elements(us) == QuizStats.Attempters(answers, qs);
  }

  datatype CourseQuizStat = CourseQuizStat(quiz: nat, attempts: nat, avgScore: real, maxScore: nat, avgPercentage: real)

  /** One quiz's figures on the statistics page: the number of distinct
      users who answered, the mean of their per-user totals (0 when nobody
      answered) and that mean as a percentage of the quiz's marks (0 for a
      quiz worth no marks). */
  method CourseQuizStatFor(z: Quiz, questions: seq<Question>, answers: AnswerTable, userIds: seq<nat>)
    returns (r: CourseQuizStat)
    ensures var qs := QuizQuestions(questions, z.id);
      r.quiz == z.id && r.attempts == |QuizStats.Attempters(answers, qs)| && r.maxScore == z.totalMarks
    ensures r.avgPercentage == ScorePercentage(r.avgScore, z.totalMarks)
    ensures var qs := QuizQuestions(questions, z.id);
      var us := Answerers(userIds, answers, qs);
      (us == [] ==> r.avgScore == 0.0) &&
      (us != [] ==> exists rows: seq<QuizStats.StudentScore> ::
         |rows| == |us| &&
         (forall i :: 0 <= i < |us| ==> rows[i].score == MarksSum(answers, us[i], qs)) &&
         r.avgScore == QuizStats.AverageScore(rows))
    ensures AnswerUsersListed(userIds, answers) ==>
      var qs := QuizQuestions(questions, z.id);
      var us := Answerers(userIds, answers, qs);
      Distinct(us) && |us| == r.attempts &&
      forall u :: u in us <==> u in QuizStats.Attempters(answers, qs)
  {
    var qs := QuizQuestions(questions, z.id);
    var us := Answerers(userIds, answers, qs);
    var rows := QuizStats.StudentScores(answers, qs, us, z.totalMarks);
    var avg := QuizStats.AverageScore(rows);
    r := CourseQuizStat(z.id, |QuizStats.Attempters(answers, qs)|, avg, z.totalMarks, ScorePercentage(avg, z.totalMarks));
    if AnswerUsersListed(userIds, answers) {
      AnswerersAreAttempters(userIds, answers, qs);
    }
  }

  /** With marks never negative, the average of the per-user totals is never
      negative either. */
  lemma AverageScoreNonNegative(answers: AnswerTable, qs: seq<Question>, rows: seq<QuizStats.StudentScore>, us: seq<nat>)
    requires forall k :: k in answers ==> answers[k].marks >= 0.0
    requires |rows| == |us| && forall i :: 0 <= i < |us| ==> rows[i].score == MarksSum(answers, us[i], qs)
    ensures QuizStats.AverageScore(rows) >= 0.0
  {
    if rows != [] {
      forall i | 0 <= i < |rows| ensures rows[i].score >= 0.0 {
        QuizStats.MarksSumNonNegative(answers, us[i], qs);
      }
      var hi := MaxScore(rows);
      QuizStats.AverageBetween(rows, 0.0, hi);
    }
  }

  /** The largest score of a non-empty list. */
  function MaxScore(rows: seq<QuizStats.StudentScore>): (m: real)
    requires rows != []
    ensures forall i :: 0 <= i < |rows| ==> rows[i].score <= m
  {
    if |rows| == 1 then rows[0].score
    else
      var rest := MaxScore(rows[1..]);
      assert forall i :: 1 <= i < |rows| ==> rows[i] == rows[1..][i - 1];
      if rows[0].score >= rest then rows[0].score else rest
  }

  // ---------------------------------------------------------------------
  // The course statistics serializer

  /** The users whose enrolment in the course is enrolled, in the order of
      the users table. */
  function EnrolledUsers(userIds: seq<nat>, t: E.Table, course: nat): (r: seq<nat>)
    ensures forall u :: u in r <==> u in userIds && E.IsEnrolled(t, u, course)
  {
    if userIds == [] then []
    else (if E.IsEnrolled(t, userIds[0], course) then [userIds[0]] else []) + EnrolledUsers(userIds[1..], t, course)
  }

  /** The number of `lessons` for which `user` has a progress record
      (records are unique per pair, so each lesson adds 0 or 1). */
  function RowEntries(p: Progress.Table, user: nat, lessons: seq<Lesson>): nat {
    if lessons == [] then 0
    else RowEntries(p, user, lessons[..|lessons| - 1]) + (if (user, lessons[|lessons| - 1].id) in p then 1 else 0)
  }

  /** The number of `lessons` whose record for `user` is completed. */
  function RowCompleted(p: Progress.Table, user: nat, lessons: seq<Lesson>): nat {
    if lessons == [] then 0
    else
      var l := lessons[|lessons| - 1];
      RowCompleted(p, user, lessons[..|lessons| - 1]) + (if (user, l.id) in p && p[(user, l.id)] == Completed then 1 else 0)
  }

  /** Progress entries over every (user, lesson) pair. */
  function Entries(p: Progress.Table, users: seq<nat>, lessons: seq<Lesson>): nat {
    if users == [] then 0 else Entries(p, users[..|users| - 1], lessons) + RowEntries(p, users[|users| - 1], lessons)
  }

  /** Completed progress entries over every (user, lesson) pair. */
  function CompletedEntries(p: Progress.Table, users: seq<nat>, lessons: seq<Lesson>): nat {
    if users == [] then 0 else CompletedEntries(p, users[..|users| - 1], lessons) + RowCompleted(p, users[|users| - 1], lessons)
  }

  lemma {:induction false} RowCompletedAtMost(p: Progress.Table, user: nat, lessons: seq<Lesson>)
    ensures RowCompleted(p, user, lessons) <= RowEntries(p, user, lessons)
  {
    if lessons != [] {
      RowCompletedAtMost(p, user, lessons[..|lessons| - 1]);
    }
  }

  lemma {:induction false} CompletedEntriesAtMost(p: Progress.Table, users: seq<nat>, lessons: seq<Lesson>)
    ensures CompletedEntries(p, users, lessons) <= Entries(p, users, lessons)
  {
    if users != [] {
      CompletedEntriesAtMost(p, users[..|users| - 1], lessons);
      RowCompletedAtMost(p, users[|users| - 1], lessons);
    }
  }

  /** `get_lesson_completion_rate`: over every user whose enrolment in the
      course is enrolled and every lesson of the course, completed entries
      as a percentage of all entries; 0 without enrolled users or without
      entries. */
  function CompletionRateOf(p: Progress.Table, userIds: seq<nat>, t: E.Table, course: nat, lessons: seq<Lesson>): real {
    var enrolled := EnrolledUsers(userIds, t, course);
    if enrolled == [] then 0.0 else Percentage(CompletedEntries(p, enrolled, lessons), Entries(p, enrolled, lessons))
  }

  /** The completion rate is a percentage, 0 without enrolled users or
      without any progress entry. */
  lemma CompletionRateBounds(p: Progress.Table, userIds: seq<nat>, t: E.Table, course: nat, lessons: seq<Lesson>)
    ensures 0.0 <= CompletionRateOf(p, userIds, t, course, lessons) <= 100.0
    ensures var enrolled := EnrolledUsers(userIds, t, course);
      enrolled == [] || Entries(p, enrolled, lessons) == 0 ==> CompletionRateOf(p, userIds, t, course, lessons) == 0.0
  {
    var enrolled := EnrolledUsers(userIds, t, course);
    CompletedEntriesAtMost(p, enrolled, lessons);
    PercentageBounds(CompletedEntries(p, enrolled, lessons), Entries(p, enrolled, lessons));
  }

  /** Over the users table, the users iterated are the enrolled users of
      the course, each once (`obj.enrollments.filter(status='enrolled')`,
      whose rows are unique per user and course). */
  lemma {:induction false} EnrolledUsersAreEnrolments(userIds: seq<nat>, t: E.Table, course: nat)
    requires EnrolmentUsersListed(userIds, t)
    ensures Distinct(EnrolledUsers(userIds, t, course))
    ensures forall u :: u in EnrolledUsers(userIds, t, course) <==> E.IsEnrolled(t, u, course)
  {
    EnrolledUsersDistinct(userIds, t, course);
  }

  lemma {:induction false} EnrolledUsersDistinct(userIds: seq<nat>, t: E.Table, course: nat)
    requires Distinct(userIds)
    ensures Distinct(EnrolledUsers(userIds, t, course))
  {
    if userIds != [] {
      Wrappers.DistinctSuffix(userIds);
      EnrolledUsersDistinct(userIds[1..], t, course);
      if E.IsEnrolled(t, userIds[0], course) {
        DistinctPrepend(userIds[0], EnrolledUsers(userIds[1..], t, course));
      }
    }
  }

  /** The serializer's nested loop over enrolled users and lessons. */
  method LessonCompletionRate(p: Progress.Table, userIds: seq<nat>, t: E.Table, course: nat, lessons: seq<Lesson>)
    returns (rate: real)
    ensures rate == CompletionRateOf(p, userIds, t, course, lessons)
  {
    var enrolled := EnrolledUsers(userIds, t, course);
    if enrolled == [] {
      return 0.0;
    }
    var total, completed := 0, 0;
    var i := 0;
    while i < |enrolled|
      invariant 0 <= i <= |enrolled|
      invariant total == Entries(p, enrolled[..i], lessons)
      invariant completed == CompletedEntries(p, enrolled[..i], lessons)
    {
      var u := enrolled[i];
      var j := 0;
      var rowTotal, rowCompleted := 0, 0;
      while j < |lessons|
        invariant 0 <= j <= |lessons|
        invariant rowTotal == RowEntries(p, u, lessons[..j])
        invariant rowCompleted == RowCompleted(p, u, lessons[..j])
      {
        var l := lessons[j];
        assert lessons[..j + 1][..j] == lessons[..j];
        if (u, l.id) in p {
          rowTotal := rowTotal + 1;
          if p[(u, l.id)] == Completed {
            rowCompleted := rowCompleted + 1;
          }
        }
        j := j + 1;
      }
      assert lessons[..j] == lessons;
      assert enrolled[..i + 1][..i] == enrolled[..i];
      total, completed := total + rowTotal, completed + rowCompleted;
      i := i + 1;
    }
    assert enrolled[..i] == enrolled;
    if total == 0 {
      return 0.0;
    }
    rate := completed as real / total as real * 100.0;
  }

  /** The answers to question `q`, one per user of `userIds` who has one. */
  function AnswersOf(answers: AnswerTable, q: nat, userIds: seq<nat>): (r: seq<Answer>)
    ensures |r| <= |userIds|
  {
    if userIds == [] then []
    else
      var rest := AnswersOf(answers, q, userIds[1..]);
      if (q, userIds[0]) in answers then [answers[(q, userIds[0])]] + rest else rest
  }

  /** Each answer listed is an answer of the table, so it inherits any bound
      on the table's marks. */
  lemma {:induction false} AnswersOfBounded(answers: AnswerTable, q: nat, userIds: seq<nat>, hi: real)
    requires forall k :: k in answers ==> 0.0 <= answers[k].marks <= hi
    ensures forall i :: 0 <= i < |AnswersOf(answers, q, userIds)| ==> 0.0 <= AnswersOf(answers, q, userIds)[i].marks <= hi
  {
    if userIds != [] {
      AnswersOfBounded(answers, q, userIds[1..], hi);
    }
  }

  function MarksOf(as_: seq<Answer>): real {
    if as_ == [] then 0.0 else MarksOf(as_[..|as_| - 1]) + as_[|as_| - 1].marks
  }

  /** The number of answers over the questions `qs`. */
  function Attempts(answers: AnswerTable, qs: seq<Question>, userIds: seq<nat>): nat {
    if qs == [] then 0
    else Attempts(answers, qs[..|qs| - 1], userIds) + |AnswersOf(answers, qs[|qs| - 1].id, userIds)|
  }

  /** The sum of the marks of the answers over the questions `qs`. */
  function TotalScore(answers: AnswerTable, qs: seq<Question>, userIds: seq<nat>): real {
    if qs == [] then 0.0
    else TotalScore(answers, qs[..|qs| - 1], userIds) + MarksOf(AnswersOf(answers, qs[|qs| - 1].id, userIds))
  }

  /** The serializer's average: total marks per answer, 0 without answers. */
  function AverageOf(answers: AnswerTable, qs: seq<Question>, userIds: seq<nat>): real {
    var n := Attempts(answers, qs, userIds);
    if n > 0 then TotalScore(answers, qs, userIds) / n as real else 0.0
  }

  /** `n` times `hi`, as a repeated sum, so that the bounds below stay
      linear. */
  function Times(n: nat, hi: real): real {
    if n == 0 then 0.0 else Times(n - 1, hi) + hi
  }

  lemma {:induction false} TimesAdd(a: nat, b: nat, hi: real)
    ensures Times(a + b, hi) == Times(a, hi) + Times(b, hi)
  {
    if b > 0 {
      TimesAdd(a, b - 1, hi);
    }
  }

  lemma {:induction false} TimesIsProduct(n: nat, hi: real)
    ensures Times(n, hi) == n as real * hi
  {
    if n > 0 {
      TimesIsProduct(n - 1, hi);
    }
  }

  lemma {:induction false} MarksOfBounds(as_: seq<Answer>, hi: real)
    requires forall i :: 0 <= i < |as_| ==> 0.0 <= as_[i].marks <= hi
    ensures 0.0 <= MarksOf(as_) <= Times(|as_|, hi)
  {
    if as_ != [] {
      MarksOfBounds(as_[..|as_| - 1], hi);
    }
  }

  lemma {:induction false} TotalScoreBounds(answers: AnswerTable, qs: seq<Question>, userIds: seq<nat>, hi: real)
    requires forall k :: k in answers ==> 0.0 <= answers[k].marks <= hi
    ensures 0.0 <= TotalScore(answers, qs, userIds) <= Times(Attempts(answers, qs, userIds), hi)
  {
    if qs != [] {
      var init := qs[..|qs| - 1];
      TotalScoreBounds(answers, init, userIds, hi);
      var as_ := AnswersOf(answers, qs[|qs| - 1].id, userIds);
      AnswersOfBounded(answers, qs[|qs| - 1].id, userIds, hi);
      MarksOfBounds(as_, hi);
      TimesAdd(Attempts(answers, init, userIds), |as_|, hi);
    }
  }

  /** When every answer earns between 0 and `hi` marks, so does the
      serializer's per-answer average; it is 0 for a quiz nobody answered. */
  lemma AverageOfBounds(answers: AnswerTable, qs: seq<Question>, userIds: seq<nat>, hi: real)
    requires forall k :: k in answers ==> 0.0 <= answers[k].marks <= hi
    ensures Attempts(answers, qs, userIds) == 0 ==> AverageOf(answers, qs, userIds) == 0.0
    ensures 0.0 <= AverageOf(answers, qs, userIds) <= (if Attempts(answers, qs, userIds) == 0 then 0.0 else hi)
  {
    TotalScoreBounds(answers, qs, userIds, hi);
    var n := Attempts(answers, qs, userIds);
    if n > 0 {
      TimesIsProduct(n, hi);
      DivideBounds(TotalScore(answers, qs, userIds), n, hi);
    }
  }

  lemma DivideBounds(total: real, n: nat, hi: real)
    requires n > 0 && 0.0 <= total <= n as real * hi
    ensures 0.0 <= total / n as real <= hi
  {
    var avg := total / n as real;
    assert avg * n as real == total;
    if avg > hi {
      assert avg * n as real > hi * n as real;
    }
  }

  // The same figures read off the answer table itself.

  /** The keys of every answer to question `q` (`question.answers.all()`). */
  function QuestionKeys(answers: AnswerTable, q: nat): set<(nat, nat)> {
    set k | k in answers && k.0 == q
  }

  /** The keys of the answers to `q` by the users of `userIds`. */
  function ListedKeys(answers: AnswerTable, q: nat, userIds: seq<nat>): set<(nat, nat)> {
    set k | k in answers && k.0 == q && k.1 in userIds
  }

  /** The marks of the answers whose keys are in `keys`. */
  ghost function KeyMarks(answers: AnswerTable, keys: set<(nat, nat)>): real
    requires keys <= answers.Keys
    decreases |keys|
  {
    if keys == {} then 0.0
    else
      var k :| k in keys;
      answers[k].marks + KeyMarks(answers, keys - {k})
  }

  /** The sum does not depend on the key taken first. */
  lemma {:induction false} KeyMarksRemove(answers: AnswerTable, keys: set<(nat, nat)>, x: (nat, nat))
    requires keys <= answers.Keys && x in keys
    ensures KeyMarks(answers, keys) == answers[x].marks + KeyMarks(answers, keys - {x})
    decreases |keys|
  {
    var k :| k in keys && KeyMarks(answers, keys) == answers[k].marks + KeyMarks(answers, keys - {k});
    if k != x {
      KeyMarksRemove(answers, keys - {k}, x);
      KeyMarksRemove(answers, keys - {x}, k);
      assert keys - {k} - {x} == keys - {x} - {k};
    }
  }

  /** Every answer to the questions `qs`. */
  function AnswerCount(answers: AnswerTable, qs: seq<Question>): nat {
    if qs == [] then 0
    else AnswerCount(answers, qs[..|qs| - 1]) + |QuestionKeys(answers, qs[|qs| - 1].id)|
  }

  /** The marks of every answer to the questions `qs`. */
  ghost function AllMarks(answers: AnswerTable, qs: seq<Question>): real {
    if qs == [] then 0.0
    else AllMarks(answers, qs[..|qs| - 1]) + KeyMarks(answers, QuestionKeys(answers, qs[|qs| - 1].id))
  }

  lemma {:induction false} MarksOfPrepend(a: Answer, as_: seq<Answer>)
    ensures MarksOf([a] + as_) == a.marks + MarksOf(as_)
  {
    if as_ != [] {
      assert ([a] + as_)[..|as_|] == [a] + as_[..|as_| - 1];
      MarksOfPrepend(a, as_[..|as_| - 1]);
    }
  }

  /** Over users listed once each, the answers `AnswersOf` collects are
      exactly the answers to `q` by those users. */
  lemma {:induction false} AnswersOfListed(answers: AnswerTable, q: nat, userIds: seq<nat>)
    requires Distinct(userIds)
    ensures |AnswersOf(answers, q, userIds)| == |ListedKeys(answers, q, userIds)|
    ensures MarksOf(AnswersOf(answers, q, userIds)) == KeyMarks(answers, ListedKeys(answers, q, userIds))
  {
    var keys := ListedKeys(answers, q, userIds);
    if userIds == [] {
      assert keys == {};
    } else {
      var u, rest := userIds[0], userIds[1..];
      Wrappers.DistinctSuffix(userIds);
      AnswersOfListed(answers, q, rest);
      var restKeys := ListedKeys(answers, q, rest);
      assert forall v :: v in userIds <==> v == u || v in rest;
      if (q, u) in answers {
        assert keys == restKeys + {(q, u)};
        assert (q, u) !in restKeys;
        MarksOfPrepend(answers[(q, u)], AnswersOf(answers, q, rest));
        KeyMarksRemove(answers, keys, (q, u));
        assert keys - {(q, u)} == restKeys;
      } else {
        assert keys == restKeys;
      }
    }
  }

  /** Over the users table, the serializer's loop counts every answer to the
      quiz's questions and adds up every one of their marks. */
  lemma {:induction false} EveryAnswerCounted(answers: AnswerTable, qs: seq<Question>, userIds: seq<nat>)
    requires AnswerUsersListed(userIds, answers)
    ensures Attempts(answers, qs, userIds) == AnswerCount(answers, qs)
    ensures TotalScore(answers, qs, userIds) == AllMarks(answers, qs)
  {
    if qs != [] {
      var q := qs[|qs| - 1].id;
      EveryAnswerCounted(answers, qs[..|qs| - 1], userIds);
      AnswersOfListed(answers, q, userIds);
      assert ListedKeys(answers, q, userIds) == QuestionKeys(answers, q);
    }
  }

  /** `get_quiz_statistics` for one quiz: the nested loop over its questions
      and their answers, counting answers and adding up marks. */
  method QuizAttemptStats(answers: AnswerTable, qs: seq<Question>, userIds: seq<nat>)
    returns (attempts: nat, average: real)
    ensures attempts == Attempts(answers, qs, userIds)
    ensures average == AverageOf(answers, qs, userIds)
    ensures AnswerUsersListed(userIds, answers) ==>
      attempts == AnswerCount(answers, qs) &&
      average == (if attempts > 0 then AllMarks(answers, qs) / attempts as real else 0.0)
  {
    var totalScore := 0.0;
    attempts := 0;
    var i := 0;
    while i < |qs|
      invariant 0 <= i <= |qs|
      invariant attempts == Attempts(answers, qs[..i], userIds)
      invariant totalScore == TotalScore(answers, qs[..i], userIds)
    {
      var as_ := AnswersOf(answers, qs[i].id, userIds);
      assert qs[..i + 1][..i] == qs[..i];
      attempts := attempts + |as_|;
      var j := 0;
      var sum := 0.0;
      while j < |as_|
        invariant 0 <= j <= |as_|
        invariant sum == MarksOf(as_[..j])
      {
        assert as_[..j + 1][..j] == as_[..j];
        sum := sum + as_[j].marks;
        j := j + 1;
      }
      assert as_[..j] == as_;
      totalScore := totalScore + sum;
      i := i + 1;
    }
    assert qs[..i] == qs;
    average := 0.0;
    if attempts > 0 {
      average := totalScore / attempts as real;
    }
    if AnswerUsersListed(userIds, answers) {
      EveryAnswerCounted(answers, qs, userIds);
    }
  }
}
