/**
 * The statistics page of a quiz: per-student scores and their average, and
 * per question the number of answers, the correct ones, the success rate
 * and, for multiple choice, the distribution of the chosen options.
 */
module QuizStats {
  import opened Wrappers
  import opened Quizzes
  import opened Progress

  /** The number of answer texts exactly equal to `o`. */
  function MatchCount(texts: seq<string>, o: string): (n: nat)
    ensures n <= |texts|
  {
    if texts == [] then 0 else (if texts[0] == o then 1 else 0) + MatchCount(texts[1..], o)
  }

  lemma {:induction false} MatchCountSnoc(texts: seq<string>, t: string, o: string)
    ensures MatchCount(texts + [t], o) == MatchCount(texts, o) + (if t == o then 1 else 0)
  {
    if texts != [] {
      assert (texts + [t])[1..] == texts[1..] + [t];
      MatchCountSnoc(texts[1..], t, o);
    }
  }

  /** The answer distribution of a multiple-choice question: every option
      starts at 0, then each answer whose text is exactly an option adds one
      to it; other texts count nowhere. */
  method Distribution(options: seq<string>, texts: seq<string>) returns (d: map<string, nat>)
    ensures d.Keys == set i | 0 <= i < |options| :: options[i]
    ensures forall o :: o in d ==> d[o] == MatchCount(texts, o)
  {
    d := map[];
    var i := 0;
    while i < |options|
      invariant 0 <= i <= |options|
      invariant d.Keys == set k | 0 <= k < i :: options[k]
      invariant forall o :: o in d ==> d[o] == 0
    {
      d := d[options[i] := 0];
      i := i + 1;
    }
    var j := 0;
    while j < |texts|
      invariant 0 <= j <= |texts|
      invariant d.Keys == set k | 0 <= k < |options| :: options[k]
      invariant forall o :: o in d ==> d[o] == MatchCount(texts[..j], o)
    {
      var t := texts[j];
      assert texts[..j + 1] == texts[..j] + [t];
      forall o ensures MatchCount(texts[..j + 1], o) == MatchCount(texts[..j], o) + (if t == o then 1 else 0) {
        MatchCountSnoc(texts[..j], t, o);
      }
      if t in d {
        d := d[t := d[t] + 1];
      }
      j := j + 1;
    }
    assert texts[..j] == texts;
  }

  /** Each option once, in first-occurrence order from the end. */
  function Dedup(os: seq<string>): (r: seq<string>)
    ensures forall o :: o in r <==> o in os
    ensures forall i, j :: 0 <= i < j < |r| ==> r[i] != r[j]
  {
    if os == [] then []
    else if os[0] in os[1..] then Dedup(os[1..])
    else [os[0]] + Dedup(os[1..])
  }

  /** The sum of the counts of the options `os`. */
  function Counted(os: seq<string>, texts: seq<string>): nat {
    if os == [] then 0 else MatchCount(texts, os[0]) + Counted(os[1..], texts)
  }

  /** How many of the options `os` equal `t`. */
  function Hits(os: seq<string>, t: string): nat {
    if os == [] then 0 else (if os[0] == t then 1 else 0) + Hits(os[1..], t)
  }

  lemma {:induction false} HitsOfDistinct(os: seq<string>, t: string)
    requires forall i, j :: 0 <= i < j < |os| ==> os[i] != os[j]
    ensures Hits(os, t) <= 1
    ensures t !in os ==> Hits(os, t) == 0
  {
    if os != [] {
      HitsOfDistinct(os[1..], t);
      if os[0] == t {
        assert t !in os[1..];
      }
    }
  }

  lemma {:induction false} CountedCons(os: seq<string>, t: string, rest: seq<string>)
    ensures Counted(os, [t] + rest) == Counted(os, rest) + Hits(os, t)
  {
    if os != [] {
      assert ([t] + rest)[1..] == rest;
      CountedCons(os[1..], t, rest);
    }
  }

  lemma {:induction false} CountedOfNoAnswers(os: seq<string>)
    ensures Counted(os, []) == 0
  {
    if os != [] {
      CountedOfNoAnswers(os[1..]);
    }
  }

  /** Distinct options never count an answer twice, so their counts add up
      to at most the number of answers. */
  lemma {:induction false} CountedAtMostAnswers(os: seq<string>, texts: seq<string>)
    requires forall i, j :: 0 <= i < j < |os| ==> os[i] != os[j]
    ensures Counted(os, texts) <= |texts|
  {
    if texts == [] {
      CountedOfNoAnswers(os);
    } else {
      assert texts == [texts[0]] + texts[1..];
      CountedCons(os, texts[0], texts[1..]);
      HitsOfDistinct(os, texts[0]);
      CountedAtMostAnswers(os, texts[1..]);
    }
  }

  /** The values of the distribution, summed over its keys, never exceed
      the number of answers. */
  lemma DistributionTotal(d: map<string, nat>, options: seq<string>, texts: seq<string>)
    requires d.Keys == set i | 0 <= i < |options| :: options[i]
    requires forall o :: o in d ==> d[o] == MatchCount(texts, o)
    ensures forall o :: o in Dedup(options) <==> o in d
    ensures Counted(Dedup(options), texts) <= |texts|
  {
    forall o ensures o in Dedup(options) <==> o in d {
      if o in options {
        var i :| 0 <= i < |options| && options[i] == o;
      }
    }
    CountedAtMostAnswers(Dedup(options), texts);
  }

  /** The number of correct answers. */
  function CorrectCount(answers: seq<Answer>): (n: nat)
    ensures n <= |answers|
  {
    if answers == [] then 0 else (if answers[0].isCorrect then 1 else 0) + CorrectCount(answers[1..])
  }

  function Texts(answers: seq<Answer>): (r: seq<string>)
    ensures |r| == |answers| && forall i :: 0 <= i < |answers| ==> r[i] == answers[i].text
  {
    if answers == [] then [] else [answers[0].text] + Texts(answers[1..])
  }

  datatype QuestionStat = QuestionStat(
    question: nat,
    totalAnswers: nat,
    correctAnswers: nat,
    successRate: real,
    distribution: Option<map<string, nat>>)

  /** The statistics of one question over its answers. The success rate is
      the percentage of correct answers, 0 without answers. A
      multiple-choice question whose options are not a stored list makes the
      page fail (`None`). */
  method StatFor(q: Question, answers: seq<Answer>) returns (r: Option<QuestionStat>)
    ensures r.None? <==> q.qtype == MultipleChoice && !q.options.OptionList?
    ensures r.Some? ==>
      r.value.question == q.id &&
      r.value.totalAnswers == |answers| &&
      r.value.correctAnswers == CorrectCount(answers) &&
      r.value.successRate == Percentage(CorrectCount(answers), |answers|) &&
      (r.value.distribution.Some? <==> q.qtype == MultipleChoice) &&
      (r.value.distribution.Some? ==>
         r.value.distribution.value.Keys == (set i | 0 <= i < |q.options.items| :: q.options.items[i]) &&
         forall o :: o in r.value.distribution.value ==> r.value.distribution.value[o] == MatchCount(Texts(answers), o))
  {
    var dist: Option<map<string, nat>> := None;
    if q.qtype == MultipleChoice {
      if !q.options.OptionList? {
        return None;
      }
      var d := Distribution(q.options.items, Texts(answers));
      dist := Some(d);
    }
    var correct := CorrectCount(answers);
    r := Some(QuestionStat(q.id, |answers|, correct, Percentage(correct, |answers|), dist));
  }

  /** A success rate is a percentage: between 0 and 100, and 0 for a
      question nobody answered. */
  lemma SuccessRateBounds(answers: seq<Answer>)
    ensures 0.0 <= Percentage(CorrectCount(answers), |answers|) <= 100.0
    ensures answers == [] ==> Percentage(CorrectCount(answers), |answers|) == 0.0
  {
    PercentageBounds(CorrectCount(answers), |answers|);
  }

  /** The users who answered some question of `qs`. */
  function Attempters(answers: AnswerTable, qs: seq<Question>): set<nat> {
    set k | k in answers && exists i :: 0 <= i < |qs| && qs[i].id == k.0 :: k.1
  }

  datatype StudentScore = StudentScore(student: nat, score: real, percentage: real)

  /** The per-student loop: each student's score is the sum of their marks
      on the quiz's questions, with its percentage of the quiz's total (0
      for a quiz worth no marks). */
  method StudentScores(answers: AnswerTable, qs: seq<Question>, students: seq<nat>, totalMarks: nat)
    returns (rows: seq<StudentScore>)
    ensures |rows| == |students|
    ensures forall i :: 0 <= i < |students| ==>
      rows[i] == StudentScore(students[i], MarksSum(answers, students[i], qs),
                              ScorePercentage(MarksSum(answers, students[i], qs), totalMarks))
    ensures Distinct(students) && (forall u :: u in students <==> u in Attempters(answers, qs)) ==>
      |rows| == |Attempters(answers, qs)|
  {
    rows := [];
    var i := 0;
    while i < |students|
      invariant 0 <= i <= |students|
      invariant |rows| == i
      invariant forall k :: 0 <= k < i ==>
        rows[k] == StudentScore(students[k], MarksSum(answers, students[k], qs),
                                ScorePercentage(MarksSum(answers, students[k], qs), totalMarks))
    {
      var score := MarksSum(answers, students[i], qs);
      rows := rows + [StudentScore(students[i], score, ScorePercentage(score, totalMarks))];
      i := i + 1;
    }
    if Distinct(students) && forall u :: u in students <==> u in Attempters(answers, qs) {
      DistinctCard(students);
      assert Elements(students) == Attempters(answers, qs);
    }
  }

  function SumScores(rows: seq<StudentScore>): real {
    if rows == [] then 0.0 else rows[0].score + SumScores(rows[1..])
  }

  /** The average of the students' scores, 0 when nobody answered. */
  function AverageScore(rows: seq<StudentScore>): real {
    if rows == [] then 0.0 else SumScores(rows) / |rows| as real
  }

  lemma {:induction false} SumScoresBounds(rows: seq<StudentScore>, lo: real, hi: real)
    requires forall i :: 0 <= i < |rows| ==> lo <= rows[i].score <= hi
    ensures |rows| as real * lo <= SumScores(rows) <= |rows| as real * hi
  {
    if rows != [] {
      SumScoresBounds(rows[1..], lo, hi);
    }
  }

  /** The average lies between the lowest and the highest score. */
  lemma AverageBetween(rows: seq<StudentScore>, lo: real, hi: real)
    requires forall i :: 0 <= i < |rows| ==> lo <= rows[i].score <= hi
    requires rows != []
    ensures lo <= AverageScore(rows) <= hi
  {
    SumScoresBounds(rows, lo, hi);
    var n := |rows| as real;
    var avg := SumScores(rows) / n;
    assert avg * n == SumScores(rows);
  }

  /** Marks are never negative, so neither are scores. */
  lemma {:induction false} MarksSumNonNegative(answers: AnswerTable, user: nat, qs: seq<Question>)
    requires forall k :: k in answers ==> answers[k].marks >= 0.0
    ensures MarksSum(answers, user, qs) >= 0.0
  {
    if qs != [] {
      MarksSumNonNegative(answers, user, qs[1..]);
    }
  }
}
