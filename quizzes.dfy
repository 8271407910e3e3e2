/**
 * Quizzes, questions and answers; how the answer serializer marks an answer;
 * the option list of a question as the serializer, the question
 * form and the attempt form see it.
 *
 * Marks are exact reals: `total_marks / question_count` is true division.
 */
module Quizzes {
  import opened Wrappers
  import opened Text
  import opened Accounts
  import opened Courses

  datatype QuestionType = MultipleChoice | ShortAnswer | TrueFalse

  /** The question-type choice field: the tags `MCQ`, `short_answer` and
      `true_false`, matched exactly. */
  function ParseQuestionType(s: string): (r: Option<QuestionType>)
    ensures r.Some? <==> s in {"MCQ", "short_answer", "true_false"}
    ensures r == Some(MultipleChoice) <==> s == "MCQ"
  {
    if s == "MCQ" then Some(MultipleChoice)
    else if s == "short_answer" then Some(ShortAnswer)
    else if s == "true_false" then Some(TrueFalse)
    else None
  }

  /** What the optional `options` text of a question holds: nothing (null or
      empty), a list of option strings (the stored form of a multiple-choice
      question), or any other text. */
  datatype Options = NoOptions | OptionList(items: seq<string>) | RawText(text: string)

  const DefaultTotalMarks: nat := 100

  datatype Quiz = Quiz(id: nat, course: nat, title: string, totalMarks: nat)

  datatype Question = Question(
    id: nat,
    quiz: nat,
    text: string,
    qtype: QuestionType,
    correctAnswer: string,
    options: Options)

  datatype Answer = Answer(text: string, isCorrect: bool, marks: real)

  /** Answers keyed by (question id, user id): one answer per pair. */
  type AnswerTable = map<(nat, nat), Answer>

  /** A new answer row before grading: not correct, no marks. */
  function NewAnswer(text: string): (a: Answer)
    ensures a.text == text && !a.isCorrect && a.marks == 0.0
  {
    Answer(text, false, 0.0)
  }

  /** `s.lower().strip()`: the form in which answers are compared. */
  function Norm(s: string): (r: string)
    ensures IsStripped(r) && |r| <= |s|
  {
    StripResultIsStripped(Lower(s));
    Strip(Lower(s))
  }

  /** What one question is worth: the quiz's total marks shared equally by
      its questions, at the moment of grading. */
  function Weight(totalMarks: nat, questionCount: nat): (w: real)
    requires questionCount > 0
    ensures w >= 0.0
    ensures w * questionCount as real == totalMarks as real
  {
    totalMarks as real / questionCount as real
  }

  datatype Grade = Grade(isCorrect: bool, marks: real)

  /** How an answer is marked, on normalised texts: multiple-choice and true/false
      answers need equal texts; short answers earn full marks for equal
      texts, half marks when either text contains the other, and nothing
      otherwise. */
  function GradeNormalised(qtype: QuestionType, student: string, expected: string, weight: real): (g: Grade)
    ensures g.isCorrect <==> student == expected
    ensures g.isCorrect ==> g.marks == weight
    ensures !g.isCorrect ==> g.marks == 0.0 || (qtype == ShortAnswer && g.marks == weight * 0.5)
  {
    match qtype
    case MultipleChoice | TrueFalse =>
      if student == expected then Grade(true, weight) else Grade(false, 0.0)
    case ShortAnswer =>
      if student == expected then Grade(true, weight)
      else if Contains(student, expected) || Contains(expected, student) then Grade(false, weight * 0.5)
      else Grade(false, 0.0)
  }

  /** `grade_answer`: both texts are lower-cased and stripped, then graded. */
  function GradeAnswer(qtype: QuestionType, correct: string, text: string, weight: real): (g: Grade)
    ensures g.isCorrect <==> Norm(text) == Norm(correct)
    ensures g.isCorrect ==> g.marks == weight
  {
    GradeNormalised(qtype, Norm(text), Norm(correct), weight)
  }

  /** The rule on normalised texts is a choice between the three tiers, and
      its marks lie between zero and the weight, a correct answer earning the
      whole weight. */
  lemma NormalisedGradeBounds(qtype: QuestionType, student: string, expected: string, weight: real)
    requires weight >= 0.0
    ensures var g := GradeNormalised(qtype, student, expected, weight);
      0.0 <= g.marks <= weight && (g.isCorrect <==> student == expected) && (g.isCorrect ==> g.marks == weight)
  {
  }

  /** Choice questions: correct exactly when the lower-cased, stripped texts
      agree, with the full weight when correct and nothing otherwise. */
  lemma ChoiceGrading(qtype: QuestionType, correct: string, text: string, weight: real)
    requires qtype != ShortAnswer
    ensures GradeAnswer(qtype, correct, text, weight) ==
      if Norm(text) == Norm(correct) then Grade(true, weight) else Grade(false, 0.0)
  {
    var student, expected := Norm(text), Norm(correct);
    assert GradeAnswer(qtype, correct, text, weight) == GradeNormalised(qtype, student, expected, weight);
  }

  /** Short answers have three tiers: equal (correct, full weight), one
      inside the other (not correct, half weight), unrelated (nothing). */
  lemma ShortAnswerTiers(correct: string, text: string, weight: real)
    ensures Norm(text) == Norm(correct) ==> GradeAnswer(ShortAnswer, correct, text, weight) == Grade(true, weight)
    ensures Norm(text) != Norm(correct) && (Contains(Norm(text), Norm(correct)) || Contains(Norm(correct), Norm(text))) ==>
      GradeAnswer(ShortAnswer, correct, text, weight) == Grade(false, weight / 2.0)
    ensures !Contains(Norm(text), Norm(correct)) && !Contains(Norm(correct), Norm(text)) ==>
      GradeAnswer(ShortAnswer, correct, text, weight) == Grade(false, 0.0)
  {
    var student, expected := Norm(text), Norm(correct);
    assert GradeAnswer(ShortAnswer, correct, text, weight) == GradeNormalised(ShortAnswer, student, expected, weight);
    ContainsTrivia(student);
  }

  /** A short answer that is blank after stripping is contained in every
      expected answer, so it earns half the weight unless the expected answer
      is blank too. */
  lemma BlankShortAnswerEarnsHalf(correct: string, text: string, weight: real)
    requires Norm(text) == [] && Norm(correct) != []
    ensures GradeAnswer(ShortAnswer, correct, text, weight) == Grade(false, weight / 2.0)
  {
    var student, expected := Norm(text), Norm(correct);
    ContainsTrivia(expected);
    assert GradeNormalised(ShortAnswer, student, expected, weight) == Grade(false, weight / 2.0);
  }

  /** Marks never exceed the weight or fall below zero; an answer is correct
      exactly when its normalised text equals the expected one, and then it
      earns exactly the weight. */
  lemma MarksWithinWeight(qtype: QuestionType, correct: string, text: string, weight: real)
    requires weight >= 0.0
    ensures var g := GradeAnswer(qtype, correct, text, weight);
      0.0 <= g.marks <= weight && (g.isCorrect <==> Norm(text) == Norm(correct)) && (g.isCorrect ==> g.marks == weight)
  {
    NormalisedGradeBounds(qtype, Norm(text), Norm(correct), weight);
  }

  /** Grading does not see whitespace around the answer, so the text the API
      trims before saving earns the same grade as the text as sent. */
  lemma GradeIgnoresSurroundingSpace(qtype: QuestionType, correct: string, text: string, weight: real)
    ensures GradeAnswer(qtype, correct, Strip(text), weight) == GradeAnswer(qtype, correct, text, weight)
  {
    StripLower(Strip(text));
    StripIdempotent(text);
    StripLower(text);
    assert Norm(Strip(text)) == Norm(text);
  }

  /** The marks earned by a sequence of graded answers: question `i` has
      type `qtypes[i]`, normalised answer `students[i]` and normalised
      expected answer `expecteds[i]`, and every question has the same
      weight. `GradeAnswer` is this rule applied to `Norm` of both texts. */
  function Score(qtypes: seq<QuestionType>, students: seq<string>, expecteds: seq<string>, weight: real): real
    requires |students| == |qtypes| && |expecteds| == |qtypes|
  {
    if qtypes == [] then 0.0
    else
      GradeNormalised(qtypes[0], students[0], expecteds[0], weight).marks
        + Score(qtypes[1..], students[1..], expecteds[1..], weight)
  }

  /** Answers that all match earn the weight once per question. */
  lemma {:induction false} ScoreOfMatching(qtypes: seq<QuestionType>, answers: seq<string>, weight: real)
    requires |answers| == |qtypes| && weight >= 0.0
    ensures Score(qtypes, answers, answers, weight) == |qtypes| as real * weight
  {
    if qtypes != [] {
      NormalisedGradeBounds(qtypes[0], answers[0], answers[0], weight);
      ScoreOfMatching(qtypes[1..], answers[1..], weight);
    }
  }

  /** When every question of a quiz is answered correctly (the normalised
      answers equal the normalised expected answers), each graded with the
      weight for the quiz's current question count, the marks add up to the
      quiz's total marks. */
  lemma AllCorrectScoresTotal(qtypes: seq<QuestionType>, answers: seq<string>, totalMarks: nat)
    requires |qtypes| > 0 && |answers| == |qtypes|
    ensures Score(qtypes, answers, answers, Weight(totalMarks, |qtypes|)) == totalMarks as real
  {
    ScoreOfMatching(qtypes, answers, Weight(totalMarks, |qtypes|));
  }

  /** `quiz.questions.all()`, in table order. */
  function QuizQuestions(qs: seq<Question>, quiz: nat): (r: seq<Question>)
    ensures forall q :: q in r <==> q in qs && q.quiz == quiz
    ensures |r| <= |qs|
  {
    if qs == [] then []
    else (if qs[0].quiz == quiz then [qs[0]] else []) + QuizQuestions(qs[1..], quiz)
  }

  /** The answer row `grade_answer` leaves behind: the submitted text with
      its grade. */
  function GradedAnswer(text: string, g: Grade): (a: Answer)
    ensures a.text == text && a.isCorrect == g.isCorrect && a.marks == g.marks
  {
    Answer(text, g.isCorrect, g.marks)
  }

  /** `AnswerSerializer.create` followed by `grade_answer`: the answer of
      `user` to `q` is created, or its text is overwritten, and it is graded
      with `weight`. The table keeps one answer per (question, user) pair. */
  function SubmitAnswer(t: AnswerTable, q: Question, user: nat, text: string, weight: real): (r: AnswerTable)
    ensures r.Keys == t.Keys + {(q.id, user)}
    ensures forall k :: k in t && k != (q.id, user) ==> r[k] == t[k]
    ensures r[(q.id, user)] == GradedAnswer(text, GradeAnswer(q.qtype, q.correctAnswer, text, weight))
  {
    t[(q.id, user) := GradedAnswer(text, GradeAnswer(q.qtype, q.correctAnswer, text, weight))]
  }

  /** Resubmitting replaces the earlier answer: only the last submission of
      a user to a question is kept, and no second row appears. */
  lemma ResubmissionOverwrites(t: AnswerTable, q: Question, user: nat, first: string, second: string, weight: real)
    ensures SubmitAnswer(SubmitAnswer(t, q, user, first, weight), q, user, second, weight)
      == SubmitAnswer(t, q, user, second, weight)
    ensures |SubmitAnswer(t, q, user, first, weight).Keys| == |t.Keys| + (if (q.id, user) in t then 0 else 1)
  {
    var once := SubmitAnswer(t, q, user, first, weight);
    if (q.id, user) !in t {
      assert once.Keys == t.Keys + {(q.id, user)};
    } else {
      assert once.Keys == t.Keys;
    }
  }

  /** `QuestionSerializer.get_options_list`: the stored list for a
      multiple-choice question, and an empty list for other types, for
      missing options and for text that is not a list. */
  function OptionsList(q: Question): (r: seq<string>)
    ensures q.qtype != MultipleChoice ==> r == []
    ensures r != [] ==> q.options == OptionList(r)
    ensures q.qtype == MultipleChoice && q.options.OptionList? ==> r == q.options.items
  {
    if q.qtype == MultipleChoice && q.options.OptionList? then q.options.items else []
  }

  /** `QuestionSerializer.validate`: a multiple-choice question needs
      options; anything else passes. An empty stored list is still non-empty
      text and passes. */
  function ValidQuestionData(qtype: Option<QuestionType>, options: Options): (ok: bool)
    ensures !ok <==> qtype == Some(MultipleChoice) && options == NoOptions
  {
    !(qtype == Some(MultipleChoice) && options.NoOptions?)
  }

  /** `QuizSerializer.validate_course`: a teacher may only name a course they
      instruct; other roles pass this check. */
  function ValidQuizCourse(user: User, c: Course): (ok: bool)
    ensures !ok <==> IsTeacher(user) && c.instructor != user.id
  {
    !(IsTeacher(user) && c.instructor != user.id)
  }

  /** Instructor-or-admin, the guard of quiz and question management and
      of the statistics page. */
  predicate IsCourseStaff(user: User, c: Course) {
    c.instructor == user.id || IsAdmin(user)
  }

  /** A teacher who passes the serializer's course check and the create
      hook's staff check is the course's instructor. */
  lemma QuizCreationRules(user: User, c: Course)
    ensures IsTeacher(user) && ValidQuizCourse(user, c) ==> c.instructor == user.id
    ensures IsStudent(user) ==> (IsCourseStaff(user, c) <==> c.instructor == user.id)
    ensures IsAdmin(user) ==> ValidQuizCourse(user, c) && IsCourseStaff(user, c)
  {
  }

  /** The option lines: each line stripped, blank ones dropped, in order. */
  function CleanLines(lines: seq<string>): (r: seq<string>)
    ensures |r| <= |lines|
    ensures forall k :: 0 <= k < |r| ==> r[k] != [] && IsStripped(r[k])
  {
    if lines == [] then []
    else
      StripResultIsStripped(lines[0]);
      (if Strip(lines[0]) != [] then [Strip(lines[0])] else []) + CleanLines(lines[1..])
  }

  /** Cleaning distributes over concatenation. */
  lemma {:induction false} CleanLinesAppend(a: seq<string>, b: seq<string>)
    ensures CleanLines(a + b) == CleanLines(a) + CleanLines(b)
  {
    if a == [] {
      assert a + b == b;
    } else {
      assert (a + b)[0] == a[0] && (a + b)[1..] == a[1..] + b;
      CleanLinesAppend(a[1..], b);
    }
  }

  /** A cleaned option is the stripped text of some non-blank input line,
      and every non-blank input line contributes its stripped text. */
  lemma {:induction false} CleanLinesMembers(lines: seq<string>, s: string)
    ensures s in CleanLines(lines) <==> s != [] && exists l :: l in lines && Strip(l) == s
  {
    if lines != [] {
      CleanLinesMembers(lines[1..], s);
      assert forall l :: l in lines <==> l == lines[0] || l in lines[1..];
    }
  }

  /** Order is kept: a non-blank line at position `i` gives the option that
      follows the options of the lines before it. */
  lemma CleanLinesOrder(lines: seq<string>, i: nat)
    requires i < |lines| && Strip(lines[i]) != []
    ensures |CleanLines(lines[..i])| < |CleanLines(lines)|
    ensures CleanLines(lines)[|CleanLines(lines[..i])|] == Strip(lines[i])
  {
    assert lines == lines[..i] + ([lines[i]] + lines[i + 1..]);
    CleanLinesAppend(lines[..i], [lines[i]] + lines[i + 1..]);
    assert ([lines[i]] + lines[i + 1..])[1..] == lines[i + 1..];
  }

  /** Lines that are already clean come back unchanged. */
  lemma {:induction false} CleanLinesOfClean(lines: seq<string>)
    requires forall k :: 0 <= k < |lines| ==> lines[k] != [] && IsStripped(lines[k])
    ensures CleanLines(lines) == lines
  {
    if lines != [] {
      StripOfStripped(lines[0]);
      CleanLinesOfClean(lines[1..]);
    }
  }

  datatype OptionsError = OptionsRequired | TooFewOptions

  /** `QuestionForm.clean_options`. For a multiple-choice question the
      (already stripped) text is required, split into lines, cleaned, and
      must give at least two options; other types keep their text. */
  function CleanOptions(qtype: Option<QuestionType>, raw: string): (r: Result<Options, OptionsError>)
    ensures qtype != Some(MultipleChoice) ==>
      r == Ok(if Strip(raw) == [] then NoOptions else RawText(Strip(raw)))
    ensures qtype == Some(MultipleChoice) ==>
      (r == Err(OptionsRequired) <==> Strip(raw) == []) &&
      (Strip(raw) != [] ==>
         (r == Err(TooFewOptions) <==> |CleanLines(Split(Strip(raw), '\n'))| < 2) &&
         (r.Ok? ==> r.value == OptionList(CleanLines(Split(Strip(raw), '\n'))))) &&
      (r.Ok? ==> (r.value.OptionList? && |r.value.items| >= 2 &&
         forall k :: 0 <= k < |r.value.items| ==> r.value.items[k] != [] && IsStripped(r.value.items[k])))
  {
    var v := Strip(raw);
    if qtype == Some(MultipleChoice) then
      if v == [] then Err(OptionsRequired)
      else
        var items := CleanLines(Split(v, '\n'));
        if |items| < 2 then Err(TooFewOptions) else Ok(OptionList(items))
    else if v == [] then Ok(NoOptions)
    else Ok(RawText(v))
  }

  /** The edit page shows a multiple-choice question's options one per line;
      submitting that text unchanged gives the same options back, provided
      there are at least two and each is stripped, non-empty and free of
      newlines. */
  lemma OptionsRoundTrip(opts: seq<string>)
    requires |opts| >= 2
    requires forall k :: 0 <= k < |opts| ==> opts[k] != [] && IsStripped(opts[k]) && '\n' !in opts[k]
    ensures CleanOptions(Some(MultipleChoice), Join(opts, '\n')) == Ok(OptionList(opts))
  {
    var text := Join(opts, '\n');
    JoinEnds(opts, '\n');
    var first, last := opts[0], opts[|opts| - 1];
    assert text[0] == first[0];
    assert text[|text| - 1] == last[|last| - 1];
    assert IsStripped(text) && text != [];
    StripOfStripped(text);
    SplitJoin(opts, '\n');
    CleanLinesOfClean(opts);
    assert CleanLines(Split(Strip(text), '\n')) == opts;
  }

  datatype QuestionError = CorrectNotAnOption | CorrectNotTrueOrFalse

  /** The outcome of the question form's cross-field check: the errors it
      adds, or a server error where the code fails. */
  datatype QuestionCheck = Checked(errors: set<QuestionError>) | ServerError

  /** `QuestionForm.clean`. `correct` is `None` when the correct-answer field
      failed its own validation, `options` is `None` when `clean_options`
      refused the options. A multiple-choice correct answer must be one of
      the cleaned options, case included; a true/false one must be `true` or
      `false` in any case. A true/false question without a correct answer
      makes the check fail with a server error. */
  function CleanQuestion(qtype: Option<QuestionType>, correct: Option<string>, options: Option<Options>): (r: QuestionCheck)
    ensures r == ServerError <==> qtype == Some(TrueFalse) && correct.None?
    ensures r.Checked? ==>
      (CorrectNotAnOption in r.errors <==>
         qtype == Some(MultipleChoice) && options.Some? && options.value.OptionList? &&
         (correct.None? || correct.value !in options.value.items)) &&
      (CorrectNotTrueOrFalse in r.errors <==>
         qtype == Some(TrueFalse) && Lower(correct.value) != "true" && Lower(correct.value) != "false")
  {
    var notOption :=
      if qtype == Some(MultipleChoice) && options.Some? && options.value.OptionList?
         && (correct.None? || correct.value !in options.value.items)
      then {CorrectNotAnOption} else {};
    if qtype == Some(TrueFalse) then
      if correct.None? then ServerError
      else if Lower(correct.value) != "true" && Lower(correct.value) != "false"
      then Checked(notOption + {CorrectNotTrueOrFalse})
      else Checked(notOption)
    else Checked(notOption)
  }

  /** A field of the quiz-attempt form. */
  datatype AttemptField = Choice(choices: seq<string>) | FreeText

  /** The name of a question's field: `question_<id>`. */
  function FieldName(id: nat): (name: string)
    ensures |name| > 9 && name[..9] == "question_"
  {
    "question_" + NatToString(id)
  }

  /** Different questions get different field names. */
  lemma FieldNameInjective(a: nat, b: nat)
    requires FieldName(a) == FieldName(b)
    ensures a == b
  {
    assert NatToString(a) == FieldName(a)[9..];
    assert NatToString(b) == FieldName(b)[9..];
    NatToStringRoundTrip(a);
    NatToStringRoundTrip(b);
  }

  /** The field built for a question: its options in stored order for
      multiple choice, `true` and `false` for true/false, free text
      otherwise. `None` where the source fails: a multiple-choice question
      whose options are not a stored list. */
  function FieldFor(q: Question): Option<AttemptField> {
    match q.qtype
    case MultipleChoice => if q.options.OptionList? then Some(Choice(q.options.items)) else None
    case TrueFalse => Some(Choice(["true", "false"]))
    case ShortAnswer => Some(FreeText)
  }

  predicate DistinctQuestionIds(qs: seq<Question>) {
    forall i, j :: 0 <= i < j < |qs| ==> qs[i].id != qs[j].id
  }

  /** `QuizAttemptForm.__init__`: one field per question. The fields are
      keyed here by question id; the form names each `FieldName(id)`, which
      keeps them apart (`FieldNameInjective`). The result is `None` when
      some question cannot be turned into a field (the form raises), and
      otherwise holds exactly the questions' fields. */
  method AttemptFields(qs: seq<Question>) returns (r: Option<map<nat, AttemptField>>)
    requires DistinctQuestionIds(qs)
    ensures r.Some? <==> forall i :: 0 <= i < |qs| ==> FieldFor(qs[i]).Some?
    ensures r.Some? ==>
      r.value.Keys == (set i | 0 <= i < |qs| :: qs[i].id) &&
      (forall i :: 0 <= i < |qs| ==> r.value[qs[i].id] == FieldFor(qs[i]).value)
  {
    var fields: map<nat, AttemptField> := map[];
    var i := 0;
    while i < |qs|
      invariant 0 <= i <= |qs|
      invariant forall k :: 0 <= k < i ==> FieldFor(qs[k]).Some?
      invariant fields.Keys == set k | 0 <= k < i :: qs[k].id
      invariant forall k :: 0 <= k < i ==> fields[qs[k].id] == FieldFor(qs[k]).value
    {
      var f := FieldFor(qs[i]);
      if f.None? {
        return None;
      }
      fields := fields[qs[i].id := f.value];
      i := i + 1;
    }
    r := Some(fields);
  }
}
