/**
 * The security middleware: which paths need a login, which are reserved to
 * a role, and the headers added to every response it lets through. Its
 * regular expressions are all anchored at the start of the path (`re.match`)
 * and built from literal text, `\d+` and `$`; each is written here as a
 * string predicate.
 */
module Middleware {
  import opened Wrappers
  import opened Text
  import opened Accounts

  predicate StartsWith(s: string, p: string) {
    |p| <= |s| && s[..|p|] == p
  }

  /** Python's `$`: the end of the text, or just before a final newline. */
  predicate AtEnd(s: string, i: nat) {
    i == |s| || (i + 1 == |s| && s[i] == '\n')
  }

  /** The length of the leading run of digits. */
  function DigitRun(s: string): (n: nat)
    ensures n <= |s|
    ensures forall i :: 0 <= i < n ==> IsDigit(s[i])
    ensures n < |s| ==> !IsDigit(s[n])
  {
    if s != [] && IsDigit(s[0]) then 1 + DigitRun(s[1..]) else 0
  }

  /** A pattern of the middleware's lists: a literal, or a literal, `\d+`
      and a literal that starts with a non-digit. */
  datatype Pattern = Lit(text: string) | Id(pre: string, post: string)

  predicate WellFormed(p: Pattern) {
    p.Id? ==> p.post != [] && !IsDigit(p.post[0])
  }

  /** Where a match at the start of `path` ends. As the literal after `\d+`
      starts with a non-digit, only the whole digit run can make it match. */
  function MatchEnd(p: Pattern, path: string): (r: Option<nat>)
    ensures r.Some? ==> r.value <= |path|
  {
    match p
    case Lit(t) => if StartsWith(path, t) then Some(|t|) else None
    case Id(pre, post) =>
      if !StartsWith(path, pre) then None
      else
        var n := DigitRun(path[|pre|..]);
        if n >= 1 && StartsWith(path[|pre| + n..], post) then Some(|pre| + n + |post|) else None
  }

  /** `re.match(p, path)`. */
  predicate Matches(p: Pattern, path: string) {
    MatchEnd(p, path).Some?
  }

  /** `re.match(p + '$', path)`. */
  predicate MatchesToEnd(p: Pattern, path: string) {
    MatchEnd(p, path).Some? && AtEnd(path, MatchEnd(p, path).value)
  }

  /** The textbook reading of `pre\d+post`: some non-empty run of digits
      after `pre` is followed by `post`, ending at `e`. */
  ghost predicate RegexMatchAt(path: string, pre: string, post: string, e: nat) {
    exists k: nat :: |pre| < k && k + |post| == e && e <= |path| &&
      StartsWith(path, pre) && AllDigits(path[|pre|..k]) && path[k..e] == post
  }

  /** The greedy reading agrees with the textbook one, at the same end. */
  lemma IdMatchIsRegex(path: string, pre: string, post: string, e: nat)
    requires WellFormed(Id(pre, post))
    ensures MatchEnd(Id(pre, post), path) == Some(e) <==> RegexMatchAt(path, pre, post, e)
  {
    if StartsWith(path, pre) {
      var rest := path[|pre|..];
      var n := DigitRun(rest);
      if MatchEnd(Id(pre, post), path) == Some(e) {
        var k := |pre| + n;
        assert path[|pre|..k] == rest[..n];
        assert path[k..e] == rest[n..][..|post|];
        assert RegexMatchAt(path, pre, post, e);
      }
      if RegexMatchAt(path, pre, post, e) {
        var k: nat :| |pre| < k && k + |post| == e && e <= |path| &&
          StartsWith(path, pre) && AllDigits(path[|pre|..k]) && path[k..e] == post;
        var m := k - |pre|;
        assert forall i :: 0 <= i < m ==> rest[i] == path[|pre|..k][i];
        assert rest[m] == post[0];
        assert n == m;
        assert rest[n..][..|post|] == path[k..e];
      }
    }
  }

  function AnyMatch(ps: seq<Pattern>, path: string): bool {
    exists i :: 0 <= i < |ps| && Matches(ps[i], path)
  }

  /** `^/courses/(?!$)` or one of the other secure prefixes. */
  predicate RequiresAuth(path: string) {
    (StartsWith(path, "/courses/") && !AtEnd(path, 9)) ||
    AnyMatch([Lit("/lessons/"), Lit("/quizzes/"), Lit("/progress/"), Lit("/certificates/"),
              Lit("/notifications/"), Lit("/accounts/profile/")], path)
  }

  /** `^/courses/$` and `^/courses/\d+/$`. */
  predicate PublicException(path: string) {
    MatchesToEnd(Lit("/courses/"), path) || MatchesToEnd(Id("/courses/", "/"), path)
  }

  predicate AdminOnly(path: string) {
    AnyMatch([Lit("/admin/")], path)
  }

  const TeacherPatterns: seq<Pattern> := [
    Lit("/courses/create/"), Id("/courses/", "/edit/"), Id("/courses/", "/delete/"),
    Id("/courses/", "/students/"), Lit("/courses/dashboard/"), Id("/lessons/course/", "/create/"),
    Id("/lessons/", "/edit/"), Id("/lessons/", "/delete/"), Id("/quizzes/course/", "/create/"),
    Id("/quizzes/", "/edit/"), Id("/quizzes/", "/delete/"), Id("/quizzes/", "/questions/"),
    Id("/quizzes/", "/statistics/"), Lit("/certificates/generate/")]

  const StudentPatterns: seq<Pattern> := [
    Id("/courses/", "/enroll/"), Id("/quizzes/", "/attempt/"), Id("/quizzes/", "/submit/"),
    Id("/lessons/", "/mark-complete/")]

  predicate TeacherOnly(path: string) {
    AnyMatch(TeacherPatterns, path)
  }

  predicate StudentOnly(path: string) {
    AnyMatch(StudentPatterns, path)
  }

  /** The middleware's verdict on a request. */
  datatype Gate = LoginRedirect(next: string) | AdminDenied | TeacherDenied | StudentDenied | Pass

  /** First the login check, for anonymous visitors only; then, for
      authenticated users only, the administrator, teacher and student
      path checks, in that order. */
  function Decide(path: string, user: Option<User>): (g: Gate)
    ensures g.LoginRedirect? ==> g.next == path
  {
    if RequiresAuth(path) && !PublicException(path) && user.None? then LoginRedirect(path)
    else if user.None? then Pass
    else if AdminOnly(path) && !IsAdmin(user.value) then AdminDenied
    else if TeacherOnly(path) && !IsTeacher(user.value) && !IsAdmin(user.value) then TeacherDenied
    else if StudentOnly(path) && !IsStudent(user.value) then StudentDenied
    else Pass
  }

  /** An anonymous visitor is sent to the login page, with the path as
      `next`, exactly on a secure path that is not public; role checks never
      apply to them, so an administrators' path lets them through. */
  lemma AnonymousRules(path: string)
    ensures Decide(path, None) == LoginRedirect(path) <==> RequiresAuth(path) && !PublicException(path)
    ensures Decide(path, None) == LoginRedirect(path) || Decide(path, None) == Pass
    ensures Decide("/admin/", None) == Pass
  {
    assert !RequiresAuth("/admin/") by {
      assert !StartsWith("/admin/", "/courses/");
      assert forall i :: 0 <= i < 6 ==> !Matches([Lit("/lessons/"), Lit("/quizzes/"), Lit("/progress/"),
        Lit("/certificates/"), Lit("/notifications/"), Lit("/accounts/profile/")][i], "/admin/");
    }
  }

  lemma DigitRunOfDigits(d: string, rest: string)
    requires AllDigits(d)
    requires rest == [] || !IsDigit(rest[0])
    ensures DigitRun(d + rest) == |d|
    decreases |d|
  {
    if d != [] {
      assert (d + rest)[1..] == d[1..] + rest;
      DigitRunOfDigits(d[1..], rest);
    }
  }

  /** The course list and every course page are public; a course's other
      pages, such as enrolment, are not. */
  lemma PublicCoursePages(n: nat)
    ensures Decide("/courses/", None) == Pass
    ensures Decide("/courses/" + NatToString(n) + "/", None) == Pass
    ensures Decide("/courses/" + NatToString(n) + "/enroll/", None).LoginRedirect?
  {
    var d := NatToString(n);
    var page := "/courses/" + d + "/";
    assert page[9..] == d + "/";
    DigitRunOfDigits(d, "/");
    assert page[9 + |d|..] == "/";
    assert MatchesToEnd(Id("/courses/", "/"), page);
    var enroll := "/courses/" + d + "/enroll/";
    assert StartsWith(enroll, "/courses/");
    assert enroll[9..] == d + "/enroll/";
    DigitRunOfDigits(d, "/enroll/");
    assert enroll[9 + |d|..] == "/enroll/";
    assert MatchEnd(Id("/courses/", "/"), enroll) == Some(10 + |d|);
    assert !MatchesToEnd(Lit("/courses/"), enroll);
  }

  /** The literal a pattern's match begins with. */
  function Head(p: Pattern): string {
    if p.Lit? then p.text else p.pre
  }

  lemma MatchStartsWithHead(p: Pattern, path: string)
    requires Matches(p, path)
    ensures StartsWith(path, Head(p))
  {
  }

  /** A path that a pattern matches begins like the pattern, so one whose
      second character is not `a` keeps it outside `/admin/`. */
  lemma OutsideAdmin(p: Pattern, path: string)
    requires Matches(p, path)
    requires |Head(p)| >= 2 && Head(p)[1] != 'a'
    ensures !AdminOnly(path)
  {
    MatchStartsWithHead(p, path);
    assert path[1] == Head(p)[1];
    assert !Matches(Lit("/admin/"), path);
  }

  lemma RoleHeads()
    ensures forall j :: 0 <= j < |TeacherPatterns| ==> |Head(TeacherPatterns[j])| >= 2 && Head(TeacherPatterns[j])[1] != 'a'
    ensures forall j :: 0 <= j < |StudentPatterns| ==> |Head(StudentPatterns[j])| >= 2 && Head(StudentPatterns[j])[1] != 'a'
  {
  }

  /** The role-reserved paths all lie outside `/admin/`. */
  lemma RolePathsAreNotAdminPaths(path: string)
    requires TeacherOnly(path) || StudentOnly(path)
    ensures !AdminOnly(path)
  {
    RoleHeads();
    if TeacherOnly(path) {
      var j :| 0 <= j < |TeacherPatterns| && Matches(TeacherPatterns[j], path);
      OutsideAdmin(TeacherPatterns[j], path);
    } else {
      var j :| 0 <= j < |StudentPatterns| && Matches(StudentPatterns[j], path);
      OutsideAdmin(StudentPatterns[j], path);
    }
  }

  /** Signed-in users: an administrators' path refuses everyone but
      administrators; a teacher path refuses students only; a student path
      refuses teachers and administrators. */
  lemma RoleRules(path: string, u: User)
    ensures AdminOnly(path) && !IsAdmin(u) ==> Decide(path, Some(u)) == AdminDenied
    ensures TeacherOnly(path) && IsStudent(u) ==> Decide(path, Some(u)) == TeacherDenied
    ensures TeacherOnly(path) && !IsStudent(u) ==> Decide(path, Some(u)) != TeacherDenied
    ensures StudentOnly(path) && !IsStudent(u) ==> Decide(path, Some(u)) == StudentDenied
    ensures !AdminOnly(path) && !TeacherOnly(path) && !StudentOnly(path) ==> Decide(path, Some(u)) == Pass
  {
    if TeacherOnly(path) || StudentOnly(path) {
      RolePathsAreNotAdminPaths(path);
    }
  }

  const LoginUrl: string := "/accounts/login/"
  const DashboardUrl: string := "/dashboard/"

  /** The response: a redirect for a refused request, without the security
      headers; otherwise the view's response with the three fixed headers
      set, and Strict-Transport-Security only when DEBUG is off. */
  datatype Response = Redirect(location: string) | Through(headers: map<string, string>)

  function SecurityHeaders(debug: bool): (h: map<string, string>)
    ensures "X-Content-Type-Options" in h && "X-Frame-Options" in h && "X-XSS-Protection" in h
    ensures h["X-Content-Type-Options"] == "nosniff"
    ensures h["X-Frame-Options"] == "DENY"
    ensures h["X-XSS-Protection"] == "1; mode=block"
    ensures "Strict-Transport-Security" in h <==> !debug
    ensures !debug ==> h["Strict-Transport-Security"] == "max-age=31536000; includeSubDomains"
    ensures |h.Keys| == if debug then 3 else 4
  {
    var base := map["X-Content-Type-Options" := "nosniff", "X-Frame-Options" := "DENY",
                     "X-XSS-Protection" := "1; mode=block"];
    if debug then base else base["Strict-Transport-Security" := "max-age=31536000; includeSubDomains"]
  }

  /** `SecurityMiddleware.__call__`: `inner` are the headers of the view's
      response, which the middleware's headers overwrite. */
  function Respond(path: string, user: Option<User>, debug: bool, inner: map<string, string>): (r: Response)
    ensures Decide(path, user) == Pass <==> r.Through?
    ensures r.Through? ==> r.headers == inner + SecurityHeaders(debug)
    ensures Decide(path, user).LoginRedirect? ==> r == Redirect(LoginUrl + "?next=" + path)
    ensures !Decide(path, user).LoginRedirect? && !Decide(path, user).Pass? ==> r == Redirect(DashboardUrl)
  {
    match Decide(path, user)
    case LoginRedirect(next) => Redirect(LoginUrl + "?next=" + next)
    case Pass => Through(inner + SecurityHeaders(debug))
    case _ => Redirect(DashboardUrl)
  }

  /** Every response let through carries the fixed headers whatever the
      view set, and HSTS exactly when DEBUG is off. */
  lemma PassedResponsesAreHardened(path: string, user: Option<User>, debug: bool, inner: map<string, string>)
    requires Respond(path, user, debug, inner).Through?
    ensures var h := Respond(path, user, debug, inner).headers;
      h["X-Content-Type-Options"] == "nosniff" && h["X-Frame-Options"] == "DENY" &&
      h["X-XSS-Protection"] == "1; mode=block" &&
      ("Strict-Transport-Security" in h <==> !debug || "Strict-Transport-Security" in inner)
  {
  }
}
