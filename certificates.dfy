/**
 * Certificates: the generated code `"<user id>-<course id>-<8 upper-case hex
 * characters>"`, the verification form's code validator, who may see a
 * certificate, and the guard chain of the teacher's "generate certificate"
 * view. The random part of the code (`uuid4().hex`) is a parameter.
 */
module Certificates {
  import opened Wrappers
  import opened Text
  import opened Accounts
  import opened Courses
  import E = Enrollments
  import opened Lessons
  import opened Progress

  datatype Certificate = Certificate(user: nat, course: nat, code: string)

  /** `max_length` of the code, on the model and on the verification form. */
  const CodeMaxLength: nat := 50

  /** The number of hex characters kept from the random value. */
  const SuffixLength: nat := 8

  /** Python's `s[:n]`. */
  function Take(s: string, n: nat): (r: string)
    ensures |r| == if |s| <= n then |s| else n
    ensures r == s[..|r|]
  {
    if |s| <= n then s else s[..n]
  }

  /** The code `save` and the generate view build from the ids and a random
      hex string. */
  function GenerateCode(user: nat, course: nat, hex: string): string {
    NatToString(user) + "-" + NatToString(course) + "-" + Upper(Take(hex, SuffixLength))
  }

  /** `Certificate.save`: a code is assigned only when the certificate has
      none; an existing code is never regenerated. */
  function SaveCode(c: Certificate, hex: string): (r: Certificate)
    ensures r.user == c.user && r.course == c.course
    ensures c.code != [] ==> r == c
    ensures c.code == [] ==> r.code == GenerateCode(c.user, c.course, hex)
  {
    if c.code == [] then c.(code := GenerateCode(c.user, c.course, hex)) else c
  }

  /** Saving twice keeps the first code. */
  lemma SaveCodeStable(c: Certificate, hex1: string, hex2: string)
    ensures SaveCode(SaveCode(c, hex1), hex2) == SaveCode(c, hex1)
  {
  }

  // ---------------------------------------------------------------------
  // The verification form's pattern `^[0-9]+-[0-9]+-[A-Z0-9]+$`

  predicate AllUpperAlnum(s: string) {
    forall i :: 0 <= i < |s| ==> IsUpperAlnum(s[i])
  }

  /** The pattern matched by splitting at the dashes: exactly three pieces,
      two non-empty runs of digits and a non-empty run of upper-case letters
      and digits. */
  predicate MatchesCodeBody(s: string) {
    var parts := Split(s, '-');
    |parts| == 3 &&
    |parts[0]| > 0 && AllDigits(parts[0]) &&
    |parts[1]| > 0 && AllDigits(parts[1]) &&
    |parts[2]| > 0 && AllUpperAlnum(parts[2])
  }

  /** The pattern as the regular expression reads: digits, a dash, digits, a
      dash, upper-case letters and digits. */
  ghost predicate CodeShape(s: string) {
    exists a: string, b: string, c: string ::
      s == a + "-" + b + "-" + c &&
      |a| > 0 && AllDigits(a) && |b| > 0 && AllDigits(b) && |c| > 0 && AllUpperAlnum(c)
  }

  lemma Join3(a: string, b: string, c: string)
    ensures Join([a, b, c], '-') == a + "-" + b + "-" + c
  {
    var xs := [a, b, c];
    assert xs[1..] == [b, c];
    assert xs[1..][1..] == [c];
    assert Join([b, c], '-') == b + "-" + c;
    assert Join(xs, '-') == a + "-" + (b + "-" + c);
  }

  /** The characters of `a + "-" + b + "-" + c`, position by position. */
  lemma ShapeIndex(a: string, b: string, c: string, k: nat)
    requires k < |a| + |b| + |c| + 2
    ensures var s := a + "-" + b + "-" + c;
      (k < |a| ==> s[k] == a[k]) &&
      (k == |a| ==> s[k] == '-') &&
      (|a| < k < |a| + 1 + |b| ==> s[k] == b[k - |a| - 1]) &&
      (k == |a| + 1 + |b| ==> s[k] == '-') &&
      (k > |a| + 1 + |b| ==> s[k] == c[k - |a| - |b| - 2])
  {
    var p := a + "-";
    var q := p + b;
    var r := q + "-";
    assert a + "-" + b + "-" + c == r + c;
    if k < |r| {
      assert (r + c)[k] == r[k];
      if k < |q| {
        assert r[k] == q[k];
        if k < |p| {
          assert q[k] == p[k];
        } else {
          assert q[k] == b[k - |p|];
        }
      }
    } else {
      assert (r + c)[k] == c[k - |r|];
    }
  }

  /** The split matcher accepts exactly the strings of the pattern's shape. */
  lemma MatchesCodeBodyIff(s: string)
    ensures MatchesCodeBody(s) <==> CodeShape(s)
  {
    if MatchesCodeBody(s) {
      var parts := Split(s, '-');
      JoinSplit(s, '-');
      assert parts == [parts[0], parts[1], parts[2]];
      Join3(parts[0], parts[1], parts[2]);
    }
    if CodeShape(s) {
      var a: string, b: string, c: string :|
        s == a + "-" + b + "-" + c &&
        |a| > 0 && AllDigits(a) && |b| > 0 && AllDigits(b) && |c| > 0 && AllUpperAlnum(c);
      ShapeSplits(a, b, c);
    }
  }

  lemma ShapeSplits(a: string, b: string, c: string)
    requires AllDigits(a) && AllDigits(b) && AllUpperAlnum(c)
    ensures Split(a + "-" + b + "-" + c, '-') == [a, b, c]
  {
    var xs := [a, b, c];
    Join3(a, b, c);
    assert '-' !in a && '-' !in b && '-' !in c;
    SplitJoin(xs, '-');
  }

  /** Python's `$` also matches just before a final newline. */
  predicate MatchesCodePattern(s: string) {
    MatchesCodeBody(s) || (|s| > 0 && s[|s| - 1] == '\n' && MatchesCodeBody(s[..|s| - 1]))
  }

  datatype CodeError = CodeRequired | CodeTooLong | CodeBadFormat

  /** `CertificateVerifyForm`'s field: the input is stripped; an empty one
      is required-missing and nothing else is checked; otherwise the length
      limit and the pattern are both checked and every failure reported. */
  function CleanCode(raw: string): (r: Result<string, set<CodeError>>)
    ensures Strip(raw) == [] <==> r == Err({CodeRequired})
    ensures r.Ok? <==> Strip(raw) != [] && |Strip(raw)| <= CodeMaxLength && CodeShape(Strip(raw))
    ensures r.Ok? ==> r.value == Strip(raw)
    ensures r.Err? && Strip(raw) != [] ==>
      (CodeTooLong in r.error <==> |Strip(raw)| > CodeMaxLength) &&
      (CodeBadFormat in r.error <==> !CodeShape(Strip(raw))) &&
      CodeRequired !in r.error
  {
    var s := Strip(raw);
    StrippedHasNoFinalNewline(raw);
    MatchesCodeBodyIff(s);
    if s == [] then Err({CodeRequired})
    else
      var errors := (if |s| > CodeMaxLength then {CodeTooLong} else {})
                  + (if !MatchesCodePattern(s) then {CodeBadFormat} else {});
      if errors == {} then Ok(s) else Err(errors)
  }

  /** A stripped value never ends in a newline, so the form's pattern check
      is the plain shape. */
  lemma StrippedHasNoFinalNewline(raw: string)
    ensures MatchesCodePattern(Strip(raw)) <==> MatchesCodeBody(Strip(raw))
  {
    StripResultIsStripped(raw);
    var s := Strip(raw);
    if |s| > 0 {
      assert !IsSpace(s[|s| - 1]);
    }
  }

  /** Every generated code has the verification pattern's shape: the ids
      are digits and the upper-cased hex characters are upper-case letters
      or digits, provided the random value yields at least one character. */
  lemma GeneratedCodeHasShape(user: nat, course: nat, hex: string)
    requires |hex| > 0
    requires forall i :: 0 <= i < |hex| ==> IsLowerHex(hex[i])
    ensures CodeShape(GenerateCode(user, course, hex))
  {
    var a, b := NatToString(user), NatToString(course);
    var t := Take(hex, SuffixLength);
    var c := Upper(t);
    assert |c| > 0;
    forall i | 0 <= i < |c| ensures IsUpperAlnum(c[i]) {
      assert t[i] == hex[i];
      assert IsLowerHex(t[i]);
    }
    assert GenerateCode(user, course, hex) == a + "-" + b + "-" + c;
    assert AllDigits(a) && AllDigits(b) && AllUpperAlnum(c);
  }

  /** So the verification form accepts every generated code that fits in 50
      characters. */
  lemma GeneratedCodeVerifies(user: nat, course: nat, hex: string)
    requires |hex| > 0
    requires forall i :: 0 <= i < |hex| ==> IsLowerHex(hex[i])
    requires |GenerateCode(user, course, hex)| <= CodeMaxLength
    ensures CleanCode(GenerateCode(user, course, hex)) == Ok(GenerateCode(user, course, hex))
  {
    var code := GenerateCode(user, course, hex);
    GeneratedCodeHasShape(user, course, hex);
    assert !IsSpace(code[0]) by { assert code[0] == NatToString(user)[0]; }
    assert !IsSpace(code[|code| - 1]) by {
      var c := Upper(Take(hex, SuffixLength));
      assert code[|code| - 1] == c[|c| - 1];
      assert Take(hex, SuffixLength)[|c| - 1] == hex[|c| - 1];
    }
    StripOfStripped(code);
  }

  /** A matching code consists of digits, upper-case letters and exactly two
      dashes: a lower-case letter anywhere, or a missing segment, is
      rejected. */
  lemma ShapeCharacters(s: string)
    requires CodeShape(s)
    ensures forall i :: 0 <= i < |s| ==> IsUpperAlnum(s[i]) || s[i] == '-'
    ensures exists i, j :: (0 < i && i + 1 < j && j + 1 < |s| && s[i] == '-' && s[j] == '-' &&
      forall k :: 0 <= k < |s| && s[k] == '-' ==> k == i || k == j)
  {
    var a: string, b: string, c: string :|
      s == a + "-" + b + "-" + c &&
      |a| > 0 && AllDigits(a) && |b| > 0 && AllDigits(b) && |c| > 0 && AllUpperAlnum(c);
    var i, j := |a|, |a| + 1 + |b|;
    forall k | 0 <= k < |s| ensures (IsUpperAlnum(s[k]) || s[k] == '-') && (s[k] == '-' ==> k == i || k == j) {
      ShapeIndex(a, b, c, k);
      if k < i {
        assert IsDigit(a[k]);
      } else if i < k < j {
        assert IsDigit(b[k - i - 1]);
      } else if k > j {
        assert IsUpperAlnum(c[k - j - 1]);
      }
    }
    ShapeIndex(a, b, c, i);
    ShapeIndex(a, b, c, j);
  }

  /** A lower-case code is refused by the form. */
  lemma LowercaseRejected(raw: string, k: nat)
    requires k < |Strip(raw)| && 'a' <= Strip(raw)[k] <= 'z'
    ensures CleanCode(raw).Err?
  {
    if CodeShape(Strip(raw)) {
      ShapeCharacters(Strip(raw));
    }
  }

  /** A code with fewer than two dashes is refused by the form. */
  lemma MissingSegmentRejected(raw: string, d: nat)
    requires d < |Strip(raw)|
    requires forall k :: 0 <= k < |Strip(raw)| && Strip(raw)[k] == '-' ==> k == d
    ensures CleanCode(raw).Err?
  {
    if CodeShape(Strip(raw)) {
      ShapeCharacters(Strip(raw));
    }
  }

  // ---------------------------------------------------------------------
  // Who sees a certificate

  /** `certificate_detail` and `download_certificate`: the certificate's
      owner, the course's instructor or an administrator. */
  predicate MayViewCertificate(requester: User, cert: Certificate, instructor: nat) {
    requester.id == cert.user || requester.id == instructor || IsAdmin(requester)
  }

  /** Anyone but an administrator or the instructor sees only their own
      certificates. */
  lemma ViewRules(requester: User, cert: Certificate, instructor: nat)
    ensures IsAdmin(requester) ==> MayViewCertificate(requester, cert, instructor)
    ensures !IsAdmin(requester) && requester.id != instructor ==>
      (MayViewCertificate(requester, cert, instructor) <==> cert.user == requester.id)
  {
  }

  /** `certificate_list`: students see their own certificates, teachers
      those of the courses they instruct, administrators all of them. */
  function VisibleCertificates(certs: seq<Certificate>, courses: seq<Course>, requester: User): (r: seq<Certificate>)
    ensures forall c :: c in r <==> (c in certs &&
      (IsAdmin(requester) ||
       (IsTeacher(requester) && E.InstructorOf(courses, c.course) == requester.id) ||
       (IsStudent(requester) && c.user == requester.id)))
    ensures |r| <= |certs|
  {
    if certs == [] then []
    else
      var c := certs[0];
      var keep := IsAdmin(requester) ||
        (IsTeacher(requester) && E.InstructorOf(courses, c.course) == requester.id) ||
        (IsStudent(requester) && c.user == requester.id);
      (if keep then [c] else []) + VisibleCertificates(certs[1..], courses, requester)
  }

  /** Every listed certificate may also be opened. */
  lemma ListedMayBeViewed(certs: seq<Certificate>, courses: seq<Course>, requester: User, c: Certificate)
    requires c in VisibleCertificates(certs, courses, requester)
    ensures MayViewCertificate(requester, c, E.InstructorOf(courses, c.course))
  {
  }

  // ---------------------------------------------------------------------
  // `generate_certificate`

  /** The certificate for this (user, course) pair exists. */
  predicate HasCertificate(certs: seq<Certificate>, user: nat, course: nat) {
    exists i :: 0 <= i < |certs| && certs[i].user == user && certs[i].course == course
  }

  datatype GenerateOutcome = GenForbidden | GenNotFound | GenAlreadyIssued | GenIncomplete | GenIssue

  /** The guard chain, in the view's order: the requester's role, the
      course, the student (a user with the student role), the instructor
      check, the enrolment (of any status), an existing certificate, and,
      except for administrators, the completed-lesson count. */
  function GenerateDecision(requester: User, courses: seq<Course>, users: seq<User>, courseId: nat, studentId: nat,
                            enrollments: E.Table, certs: seq<Certificate>, progress: Progress.Table,
                            lessons: seq<Lesson>): GenerateOutcome
  {
    if !IsTeacher(requester) && !IsAdmin(requester) then GenForbidden
    else match FindCourse(courses, courseId)
      case None => GenNotFound
      case Some(course) =>
        match FindUser(users, studentId)
        case None => GenNotFound
        case Some(student) =>
          if !IsStudent(student) then GenNotFound
          else if !IsAdmin(requester) && course.instructor != requester.id then GenForbidden
          else if (studentId, courseId) !in enrollments then GenNotFound
          else if HasCertificate(certs, studentId, courseId) then GenAlreadyIssued
          else if !IsAdmin(requester) &&
                  CountWith(progress, studentId, CourseLessons(lessons, courseId), Completed) < |CourseLessons(lessons, courseId)|
          then GenIncomplete
          else GenIssue
  }

  /** What a successful generation guarantees, and what it does not look at:
      the requester is an administrator or the instructor, the student has
      an enrolment of some status and no certificate, and for a teacher all
      lessons are completed; quizzes are never consulted. */
  lemma GenerateRules(requester: User, courses: seq<Course>, users: seq<User>, courseId: nat, studentId: nat,
                      enrollments: E.Table, certs: seq<Certificate>, progress: Progress.Table, lessons: seq<Lesson>)
    ensures !IsTeacher(requester) && !IsAdmin(requester) ==>
      GenerateDecision(requester, courses, users, courseId, studentId, enrollments, certs, progress, lessons) == GenForbidden
    ensures GenerateDecision(requester, courses, users, courseId, studentId, enrollments, certs, progress, lessons) == GenIssue ==>
      FindCourse(courses, courseId).Some? &&
      (IsAdmin(requester) || FindCourse(courses, courseId).value.instructor == requester.id) &&
      FindUser(users, studentId).Some? && IsStudent(FindUser(users, studentId).value) &&
      (studentId, courseId) in enrollments && !HasCertificate(certs, studentId, courseId) &&
      (!IsAdmin(requester) ==>
         CountWith(progress, studentId, CourseLessons(lessons, courseId), Completed) == |CourseLessons(lessons, courseId)|)
    ensures HasCertificate(certs, studentId, courseId) ==>
      GenerateDecision(requester, courses, users, courseId, studentId, enrollments, certs, progress, lessons) != GenIssue
  {
    var ls := CourseLessons(lessons, courseId);
    CountsPartition(progress, studentId, ls);
  }

  /** The enrolment check comes before the duplicate check: a student
      without an enrolment is not found even when a certificate exists. */
  lemma EnrollmentCheckedFirst(requester: User, courses: seq<Course>, users: seq<User>, courseId: nat, studentId: nat,
                               enrollments: E.Table, certs: seq<Certificate>, progress: Progress.Table, lessons: seq<Lesson>)
    requires IsAdmin(requester)
    requires FindCourse(courses, courseId).Some?
    requires FindUser(users, studentId).Some? && IsStudent(FindUser(users, studentId).value)
    requires (studentId, courseId) !in enrollments
    ensures GenerateDecision(requester, courses, users, courseId, studentId, enrollments, certs, progress, lessons) == GenNotFound
  {
  }

  /** The zero-lesson inconsistency: for a course without lessons the
      generate view's lesson check passes (`0 < 0` is false), while the
      progress pages and the course-progress serializer put such a course
      at 0% and never call it completed. */
  lemma ZeroLessonCourse(requester: User, courses: seq<Course>, users: seq<User>, courseId: nat, studentId: nat,
                         enrollments: E.Table, certs: seq<Certificate>, progress: Progress.Table, lessons: seq<Lesson>,
                         quizRows: seq<QuizRow>)
    requires CourseLessons(lessons, courseId) == []
    requires IsTeacher(requester)
    requires FindCourse(courses, courseId).Some? && FindCourse(courses, courseId).value.instructor == requester.id
    requires FindUser(users, studentId).Some? && IsStudent(FindUser(users, studentId).value)
    requires (studentId, courseId) in enrollments && !HasCertificate(certs, studentId, courseId)
    ensures GenerateDecision(requester, courses, users, courseId, studentId, enrollments, certs, progress, lessons) == GenIssue
    ensures !SerializerCompletes(0, 0) && !IsCompleted(Percentage(0, 0), quizRows)
  {
    CompletionVerdict(0, 0, quizRows);
  }
}
