/**
 * Lesson progress: the status tag, the table keyed by (user id, lesson id),
 * the status transitions of the serializer and the lesson views, and the
 * reconciliation the progress pages and the course-progress serializer
 * perform (status counts, percentages, quiz status and score, the
 * completion verdict).
 */
module Progress {
  import opened Wrappers
  import opened Lessons
  import opened Quizzes

  /** The three values of `Progress.status`. */
  datatype Status = NotStarted | InProgress | Completed

  /** A new record starts as not started. */
  const DefaultStatus: Status := NotStarted

  function StatusTag(s: Status): string {
    match s
    case NotStarted => "not_started"
    case InProgress => "in_progress"
    case Completed => "completed"
  }

  /** The status choices, matched exactly; `update_progress` accepts these
      three strings and nothing else. */
  function ParseStatus(s: string): (r: Option<Status>)
    ensures r.Some? <==> s in {"not_started", "in_progress", "completed"}
    ensures r.Some? ==> StatusTag(r.value) == s
  {
    if s == "not_started" then Some(NotStarted)
    else if s == "in_progress" then Some(InProgress)
    else if s == "completed" then Some(Completed)
    else None
  }

  /** Progress records keyed by (user id, lesson id): at most one per pair. */
  type Table = map<(nat, nat), Status>

  /** The status shown for a lesson: the record's, or not started when the
      user has no record for it. */
  function StatusOf(t: Table, user: nat, lesson: nat): (s: Status)
    ensures (user, lesson) !in t ==> s == NotStarted
    ensures (user, lesson) in t ==> s == t[(user, lesson)]
  {
    if (user, lesson) in t then t[(user, lesson)] else NotStarted
  }

  /** `ProgressSerializer.create`: an existing record takes the given status
      or keeps its own; otherwise a record is created with the given status
      or not started. */
  function UpsertProgress(t: Table, user: nat, lesson: nat, given: Option<Status>): (r: Table)
    ensures r.Keys == t.Keys + {(user, lesson)}
    ensures forall k :: k in t && k != (user, lesson) ==> r[k] == t[k]
    ensures given.Some? ==> r[(user, lesson)] == given.value
    ensures given.None? ==> r[(user, lesson)] == StatusOf(t, user, lesson)
  {
    var s := if given.Some? then given.value else if (user, lesson) in t then t[(user, lesson)] else DefaultStatus;
    t[(user, lesson) := s]
  }

  /** Creating without a status is harmless on an existing record, and
      creating twice with the same status is creating once. */
  lemma UpsertProgressIdempotent(t: Table, user: nat, lesson: nat, given: Option<Status>)
    ensures UpsertProgress(UpsertProgress(t, user, lesson, given), user, lesson, given) == UpsertProgress(t, user, lesson, given)
    ensures (user, lesson) in t ==> UpsertProgress(t, user, lesson, None) == t
  {
  }

  /** `lesson_detail` for an enrolled student: a missing record is created
      as in progress and a not-started one moves to in progress; in progress
      and completed are kept. */
  function ViewedStatus(current: Option<Status>): (s: Status)
    ensures current == Some(Completed) <==> s == Completed
    ensures s != NotStarted
  {
    match current
    case None => InProgress
    case Some(NotStarted) => InProgress
    case Some(c) => c
  }

  /** Viewing never undoes a completion and viewing again changes nothing. */
  lemma ViewingIsMonotone(current: Option<Status>)
    ensures ViewedStatus(Some(ViewedStatus(current))) == ViewedStatus(current)
    ensures current.Some? && current.value != NotStarted ==> ViewedStatus(current) == current.value
  {
  }

  /** The number of `lessons` whose status for `user` is `s`. */
  function CountWith(t: Table, user: nat, lessons: seq<Lesson>, s: Status): (n: nat)
    ensures n <= |lessons|
  {
    if lessons == [] then 0
    else (if StatusOf(t, user, lessons[0].id) == s then 1 else 0) + CountWith(t, user, lessons[1..], s)
  }

  lemma {:induction false} CountWithSnoc(t: Table, user: nat, lessons: seq<Lesson>, l: Lesson, s: Status)
    ensures CountWith(t, user, lessons + [l], s) ==
      CountWith(t, user, lessons, s) + (if StatusOf(t, user, l.id) == s then 1 else 0)
  {
    if lessons != [] {
      assert (lessons + [l])[1..] == lessons[1..] + [l];
      CountWithSnoc(t, user, lessons[1..], l, s);
    }
  }

  /** Every lesson is counted once: completed, in progress and not started
      add up to the number of lessons. */
  lemma {:induction false} CountsPartition(t: Table, user: nat, lessons: seq<Lesson>)
    ensures CountWith(t, user, lessons, Completed) + CountWith(t, user, lessons, InProgress)
      + CountWith(t, user, lessons, NotStarted) == |lessons|
  {
    if lessons != [] {
      CountsPartition(t, user, lessons[1..]);
    }
  }

  /** The counter loop of `CourseProgressSerializer.to_representation`: a
      lesson without a record and a lesson recorded as not started both
      count as not started. */
  method CountStatuses(t: Table, user: nat, lessons: seq<Lesson>) returns (completed: nat, inProgress: nat, notStarted: nat)
    ensures completed == CountWith(t, user, lessons, Completed)
    ensures inProgress == CountWith(t, user, lessons, InProgress)
    ensures notStarted == CountWith(t, user, lessons, NotStarted)
    ensures completed + inProgress + notStarted == |lessons|
  {
    completed, inProgress, notStarted := 0, 0, 0;
    var i := 0;
    while i < |lessons|
      invariant 0 <= i <= |lessons|
      invariant completed == CountWith(t, user, lessons[..i], Completed)
      invariant inProgress == CountWith(t, user, lessons[..i], InProgress)
      invariant notStarted == CountWith(t, user, lessons[..i], NotStarted)
    {
      var l := lessons[i];
      assert lessons[..i + 1] == lessons[..i] + [l];
      CountWithSnoc(t, user, lessons[..i], l, Completed);
      CountWithSnoc(t, user, lessons[..i], l, InProgress);
      CountWithSnoc(t, user, lessons[..i], l, NotStarted);
      if (user, l.id) !in t {
        notStarted := notStarted + 1;
      } else if t[(user, l.id)] == Completed {
        completed := completed + 1;
      } else if t[(user, l.id)] == InProgress {
        inProgress := inProgress + 1;
      } else {
        notStarted := notStarted + 1;
      }
      i := i + 1;
    }
    assert lessons[..i] == lessons;
    CountsPartition(t, user, lessons);
  }

  /** One row of a progress page's lesson list. */
  datatype LessonRow = LessonRow(lesson: Lesson, status: Status, hasRecord: bool)

  function RowFor(t: Table, user: nat, l: Lesson): LessonRow {
    LessonRow(l, StatusOf(t, user, l.id), (user, l.id) in t)
  }

  /** The lesson loop of `course_progress` and `student_progress`: one row
      per lesson in the given order, and the number of completed ones. */
  method LessonRows(t: Table, user: nat, lessons: seq<Lesson>) returns (rows: seq<LessonRow>, completed: nat)
    ensures |rows| == |lessons|
    ensures forall i :: 0 <= i < |lessons| ==> rows[i] == RowFor(t, user, lessons[i])
    ensures completed == CountWith(t, user, lessons, Completed)
  {
    rows, completed := [], 0;
    var i := 0;
    while i < |lessons|
      invariant 0 <= i <= |lessons|
      invariant |rows| == i
      invariant forall k :: 0 <= k < i ==> rows[k] == RowFor(t, user, lessons[k])
      invariant completed == CountWith(t, user, lessons[..i], Completed)
    {
      var l := lessons[i];
      assert lessons[..i + 1] == lessons[..i] + [l];
      CountWithSnoc(t, user, lessons[..i], l, Completed);
      var status := NotStarted;
      if (user, l.id) in t {
        status := t[(user, l.id)];
        if status == Completed {
          completed := completed + 1;
        }
      }
      rows := rows + [LessonRow(l, status, (user, l.id) in t)];
      i := i + 1;
    }
    assert lessons[..i] == lessons;
  }

  /** `completed / total * 100`, and 0 for a course without lessons. */
  function Percentage(completed: nat, total: nat): real {
    if total > 0 then completed as real / total as real * 100.0 else 0.0
  }

  /** The percentage lies between 0 and 100, and it is 100 exactly when
      there is at least one lesson and every lesson is completed; a course
      without lessons is at 0%. */
  lemma PercentageBounds(completed: nat, total: nat)
    requires completed <= total
    ensures 0.0 <= Percentage(completed, total) <= 100.0
    ensures Percentage(completed, total) == 100.0 <==> total > 0 && completed == total
    ensures total == 0 ==> Percentage(completed, total) == 0.0
  {
    if total > 0 {
      var f := completed as real / total as real;
      assert f * total as real == completed as real;
      if completed < total {
        assert f < 1.0;
      }
    }
  }

  /** A quiz's status on a progress page: nothing answered is not started
      (even when the quiz has no questions), some but not all answered is in
      progress, and otherwise completed. */
  function QuizStatus(answered: nat, total: nat): (s: Status)
    ensures s == NotStarted <==> answered == 0
    ensures s == InProgress <==> 0 < answered < total
    ensures s == Completed <==> answered > 0 && answered >= total
  {
    if answered == 0 then NotStarted
    else if answered < total then InProgress
    else Completed
  }

  /** The number of `qs` that `user` has answered. Answers are keyed by
      (question, user), so this is the number of distinct questions
      answered. */
  function AnsweredCount(answers: AnswerTable, user: nat, qs: seq<Question>): (n: nat)
    ensures n <= |qs|
  {
    if qs == [] then 0
    else (if (qs[0].id, user) in answers then 1 else 0) + AnsweredCount(answers, user, qs[1..])
  }

  /** The sum of the marks of `user`'s answers to `qs`. */
  function MarksSum(answers: AnswerTable, user: nat, qs: seq<Question>): real {
    if qs == [] then 0.0
    else
      (if (qs[0].id, user) in answers then answers[(qs[0].id, user)].marks else 0.0)
        + MarksSum(answers, user, qs[1..])
  }

  /** One row of a progress page's quiz list. */
  datatype QuizRow = QuizRow(quiz: nat, status: Status, answered: nat, total: nat, score: real, maxScore: nat, percentage: real)

  /** `score / total_marks * 100`, and 0 for a quiz worth no marks. */
  function ScorePercentage(score: real, totalMarks: nat): real {
    if totalMarks > 0 then score / totalMarks as real * 100.0 else 0.0
  }

  /** The row for quiz `z`: the score is the sum of the user's marks only
      when the quiz is completed, and 0 otherwise. */
  function QuizRowFor(z: Quiz, questions: seq<Question>, answers: AnswerTable, user: nat): QuizRow {
    var qs := QuizQuestions(questions, z.id);
    var answered := AnsweredCount(answers, user, qs);
    var status := QuizStatus(answered, |qs|);
    var score := if status == Completed then MarksSum(answers, user, qs) else 0.0;
    QuizRow(z.id, status, answered, |qs|, score, z.totalMarks, ScorePercentage(score, z.totalMarks))
  }

  /** What a quiz row reports: the status follows the answered count, a
      completed quiz has every question answered, and only a completed quiz
      has a score. */
  lemma QuizRowRules(z: Quiz, questions: seq<Question>, answers: AnswerTable, user: nat)
    ensures var r := QuizRowFor(z, questions, answers, user);
      r.answered <= r.total &&
      r.status == QuizStatus(r.answered, r.total) &&
      (r.status == Completed ==> r.answered == r.total && r.total > 0) &&
      (r.status != Completed ==> r.score == 0.0) &&
      (r.maxScore == 0 ==> r.percentage == 0.0)
  {
  }

  /** The quiz loop of `course_progress` and `student_progress`. */
  method QuizRows(quizzes: seq<Quiz>, questions: seq<Question>, answers: AnswerTable, user: nat) returns (rows: seq<QuizRow>)
    ensures |rows| == |quizzes|
    ensures forall i :: 0 <= i < |quizzes| ==> rows[i] == QuizRowFor(quizzes[i], questions, answers, user)
  {
    rows := [];
    var i := 0;
    while i < |quizzes|
      invariant 0 <= i <= |quizzes|
      invariant |rows| == i
      invariant forall k :: 0 <= k < i ==> rows[k] == QuizRowFor(quizzes[k], questions, answers, user)
    {
      rows := rows + [QuizRowFor(quizzes[i], questions, answers, user)];
      i := i + 1;
    }
  }

  /** `is_completed` on the progress page: 100% of the lessons and every
      quiz completed. */
  predicate IsCompleted(percentage: real, rows: seq<QuizRow>) {
    percentage == 100.0 && forall i :: 0 <= i < |rows| ==> rows[i].status == Completed
  }

  /** The verdict holds exactly when the course has lessons, all of them
      completed, and every quiz row is completed; with no quizzes only the
      lessons matter, and a course without lessons never completes. */
  lemma CompletionVerdict(completed: nat, total: nat, rows: seq<QuizRow>)
    requires completed <= total
    ensures IsCompleted(Percentage(completed, total), rows) <==>
      total > 0 && completed == total && forall i :: 0 <= i < |rows| ==> rows[i].status == Completed
    ensures rows == [] ==> (IsCompleted(Percentage(completed, total), rows) <==> total > 0 && completed == total)
    ensures total == 0 ==> !IsCompleted(Percentage(completed, total), rows)
  {
    PercentageBounds(completed, total);
  }

  /** The serializer's completion condition: lessons only, quizzes are not
      consulted. */
  predicate SerializerCompletes(completed: nat, total: nat) {
    Percentage(completed, total) == 100.0
  }

  /** The serializer completes a course exactly when the page would with
      every quiz completed, so a lesson-less course completes on neither
      path. */
  lemma SerializerIgnoresQuizzes(completed: nat, total: nat, rows: seq<QuizRow>)
    requires completed <= total
    ensures SerializerCompletes(completed, total) <==> total > 0 && completed == total
    ensures IsCompleted(Percentage(completed, total), rows) ==> SerializerCompletes(completed, total)
  {
    PercentageBounds(completed, total);
  }
}
