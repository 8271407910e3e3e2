# A verified model of the LearningManagementSystem core

LearningManagementSystem is a Django learning platform with three roles: administrators, teachers and students. Teachers own courses made of ordered lessons and quizzes. Students enrol, view lessons, which moves their progress records, and answer quizzes, which are graded automatically. When a course is completed, the enrolment becomes completed and a certificate with a verifiable code is issued, along with a notification. Administrators manage users and broadcast notifications, and a middleware gates paths by login and role.

This project models that core in Dafny and proves what the code promises about it.

- **Pure decision rules** are Dafny functions with contracts, and lemmas relate them. This covers:
  - grading and the answer upsert;
  - progress counting and the completion verdict;
  - the certificate code and its verification pattern;
  - lesson ordering and navigation;
  - quiz statistics;
  - the form validators;
  - the permission predicates;
  - the middleware's path and role gate.
- **The database** is the class `Store.Lms`:
  - users, courses, lessons, quizzes and questions are rows in table order;
  - answers, progress and enrolments are maps keyed by the unique pair the schema declares;
  - certificates and notifications are rows in creation order.
- **Every view or API action that writes** is a method of `Store.Lms`. The method states its outcome and the whole new state, in terms of the functions above, and keeps the invariant `Valid` (distinct lesson ids, unique certificate codes, one certificate per pair).

| module | models |
|---|---|
| `Wrappers` | `Option` and `Result` |
| `Text` | ASCII `lower`/`upper`/`strip`, substring search, `split`/`join`, decimal rendering |
| `Accounts` | the user, its roles, and the registration and profile validators |
| `Courses` | the course, its active window, its date form and its write permissions |
| `Enrollments` | enrolment statuses, the duplicate check, the object permission and the listing |
| `Lessons` | ordering, navigation, next lesson, next order and reordering |
| `Quizzes` | grading, the answer upsert, the question serializers and the question and attempt forms |
| `Progress` | progress statuses and upsert, lesson counts, quiz rows and the completion verdict |
| `QuizStats` | the statistics page: answer distribution, success rates and student scores |
| `CourseAccess` | the course page, course statistics and their serializer aggregates |
| `Certificates` | the code, its verification form, the access rules and the generate guard chain |
| `Notifications` | notifications, read flags and unread counts |
| `AdminForms` | the administrators' user, password and notification forms |
| `AdminViews` | the user list, delete guard, user statistics and notification fan-out |
| `Middleware` | the login and role gate and the security headers |
| `Store` | the tables and every endpoint that changes them |

Ids are natural numbers. Marks and percentages are `real`, so they are exact rationals. The request user, the random hex of a certificate code, today's date and `settings.DEBUG` are parameters.

## Model

| member | source | states |
|---|---|---|
| Text.Lower | mylms/quizzes/serializers.py:94 | ASCII `str.lower`: same length, each character lower-cased on its own |
| Text.Upper | mylms/certificates/views.py:107 | ASCII `str.upper`: same length, each character upper-cased on its own |
| Text.TrimStart | mylms/quizzes/serializers.py:94 | leading whitespace is dropped: what remains does not start with whitespace and everything cut was whitespace |
| Text.TrimEnd | mylms/quizzes/serializers.py:94 | trailing whitespace is dropped: what remains does not end with whitespace and everything cut was whitespace |
| Text.TrimStartIsSuffix | mylms/quizzes/serializers.py:94 | what the leading trim keeps is a suffix of the input |
| Text.TrimEndIsPrefix | mylms/quizzes/serializers.py:94 | what the trailing trim keeps is a prefix of the input |
| Text.StripIsSlice | mylms/quizzes/forms.py:39 | `strip()` returns one contiguous slice of the input, only whitespace is cut on either side, and the result neither starts nor ends with whitespace |
| Text.TrimStartOfNonSpace | mylms/quizzes/forms.py:39 | the leading trim leaves a string not starting with whitespace unchanged |
| Text.TrimEndOfNonSpace | mylms/quizzes/forms.py:39 | the trailing trim leaves a string not ending with whitespace unchanged |
| Text.StripIdempotent | mylms/quizzes/forms.py:39 | stripping twice is stripping once |
| Text.StripOfStripped | mylms/quizzes/forms.py:39 | a string without surrounding whitespace is its own strip |
| Text.StripResultIsStripped | mylms/quizzes/forms.py:39 | a stripped string has no surrounding whitespace |
| Text.LowerOfSlice | mylms/quizzes/serializers.py:101-102 | lower-casing commutes with taking a slice |
| Text.LowerIdempotent | mylms/quizzes/serializers.py:101-102 | lower-casing twice is lower-casing once |
| Text.LowerCharKeepsSpace | mylms/quizzes/serializers.py:101-102 | a character is whitespace after lower-casing exactly when it was before |
| Text.TrimStartLower | mylms/quizzes/serializers.py:101-102 | the leading trim commutes with lower-casing |
| Text.TrimEndLower | mylms/quizzes/serializers.py:101-102 | the trailing trim commutes with lower-casing |
| Text.StripLower | mylms/quizzes/serializers.py:94 | `s.lower().strip()` equals `s.strip().lower()`, so the order in which grading makes the two calls does not matter |
| Text.ContainsAt | mylms/core/admin_views.py:36-48 | an occurrence of the needle at any index makes the substring test true |
| Text.ContainsWitness | mylms/core/admin_views.py:36-48 | the substring test is true only with an occurrence at some index (with `ContainsAt`, the test is exactly "occurs somewhere") |
| Text.ContainsTrivia | mylms/core/admin_views.py:36-48 | every string contains the empty string and itself, so an empty search matches everything |
| Text.IndexOf | mylms/quizzes/forms.py:39 | the index of the first separator: it holds the separator and no earlier position does |
| Text.Split | mylms/quizzes/forms.py:39 | `split` gives at least one piece and no piece contains the separator |
| Text.SplitJoin | mylms/quizzes/forms.py:36-47 | splitting a join gives the pieces back when no piece holds the separator |
| Text.JoinSplit | mylms/quizzes/forms.py:36-47 | joining the pieces of a split gives the string back |
| Text.JoinCons | mylms/quizzes/forms.py:36-47 | joining a piece in front of a non-empty list puts exactly one separator between it and the rest |
| Text.JoinEnds | mylms/quizzes/forms.py:36-47 | a join starts with its first piece and ends with its last |
| Text.DigitChar | mylms/certificates/views.py:107 | a digit below ten renders as a decimal digit character |
| Text.NatToString | mylms/certificates/views.py:107 | an id renders as a non-empty run of digits with no leading zero unless it is 0 |
| Text.NatToStringRoundTrip | mylms/certificates/views.py:107 | reading back the decimal rendering of an id gives the id |
| Accounts.FindUser | mylms/core/admin_views.py:94-96 | the user found has the requested id and is in the table; none is found exactly when no row has that id |
| Accounts.ExactlyOneRole | mylms/accounts/models.py:18-25 | exactly one of `is_admin`, `is_teacher`, `is_student` holds for every user |
| Accounts.ParseRole | mylms/accounts/models.py:5-15 | a role choice is accepted exactly when it is one of the three tags, and it maps back to that tag |
| Accounts.RegistrationRole | mylms/accounts/forms.py:65-73 | the registration form accepts exactly "student" and "teacher", never yielding an administrator |
| Accounts.NoSelfRegisteredAdmin | mylms/accounts/forms.py:65-73 | no registration input gives the admin role, although "admin" is a valid model role |
| Accounts.CleanName | mylms/accounts/forms.py:25-53 | a name is accepted exactly when its stripped value is non-empty, at most 30 characters and only letters and whitespace; otherwise the reported errors are exactly the failing validators (only "required" for a blank value) |
| Accounts.CleanNameIdempotent | mylms/accounts/forms.py:103-129 | a cleaned name passes the same validation again unchanged |
| Accounts.CleanEmail | mylms/accounts/forms.py:144-149 | an email is accepted exactly when its stripped value is non-empty, at most 254 characters and held by no other user; "already in use" is reported exactly when only the uniqueness check fails |
| Accounts.OwnEmailAccepted | mylms/accounts/forms.py:96-100 | registration refuses an email that some user holds, while the profile form accepts the user's own unique email |
| Courses.FindCourse | mylms/courses/views.py:114-116 | the course found has the requested id and is in the table; none exactly when no row has that id |
| Courses.ActiveWindow | mylms/courses/models.py:23-25 | a course is not active before its start or after its end, and a one-day course is active on that day only |
| Courses.IsActive | mylms/courses/models.py:23-25 | `is_active` with today's date as a parameter: start and end both included; Courses.ActiveWindow states its window |
| Courses.CleanCourseDates | mylms/courses/forms.py:19-32 | with both dates given, an inverted range is refused, and a start in the past is refused exactly for an unsaved course with a valid range; with a date missing nothing is refused |
| Courses.CourseWriteRules | mylms/courses/permissions.py:3-24 | writes on a course object need its instructor or an admin; an admin passes the object check but fails the view check's teacher requirement; students and anonymous users never write; reads are open |
| Courses.MayWriteCourses | mylms/courses/permissions.py:8-14 | the view-level permission: reads for everyone, writes for an authenticated teacher; Courses.CourseWriteRules relates it to the object check |
| Courses.MayWriteCourse | mylms/courses/permissions.py:16-24 | the object-level permission: reads for everyone, writes for the course's instructor or an administrator; Courses.CourseWriteRules states its cases |
| Courses.InstructorName | mylms/courses/serializers.py:19-20 | the display name is the first name, one space, then the last name |
| Enrollments.StatusOfTag | mylms/enrollments/models.py:6-18 | the three declared tags map to their statuses and any other string is kept verbatim |
| Enrollments.ParseStatus | mylms/enrollments/views.py:55 | a status is accepted exactly when it is one of the three declared choices |
| Enrollments.ValidateEnrollment | mylms/enrollments/serializers.py:17-25 | enrolling passes exactly when no course is given or the requester holds no enrolment of any status in it |
| Enrollments.OwnerOrAdminRules | mylms/enrollments/permissions.py:8-18 | admins always pass; a course's teaching instructor passes; anyone else passes exactly on their own enrolment, so a student never sees another user's |
| Enrollments.IsOwnerOrAdmin | mylms/enrollments/permissions.py:8-18 | the object permission: administrators, the teaching instructor of the enrolment's course, or the enrolment's owner; Enrollments.OwnerOrAdminRules states its cases |
| Enrollments.VisibleEnrollments | mylms/enrollments/views.py:15-25 | the listing is part of the table: all of it for admins, exactly the enrolments of the courses a teacher instructs for teachers, exactly a student's own rows for students |
| Enrollments.VisibleImpliesPermitted | mylms/enrollments/views.py:15-25 | whatever the listing shows the object permission also allows, and a teacher sees only enrolments of courses they instruct |
| Enrollments.EnrollmentCountPartition | mylms/courses/models.py:20-21 | a course's enrolment count is the sum of its enrolled, completed, dropped and otherwise-tagged enrolments |
| Notifications.TypeOfTag | mylms/notifications/models.py:5-24 | every stored tag reads back to a type whose tag is that string; only the six declared tags map to declared types |
| Notifications.TagRoundTrip | mylms/notifications/models.py:5-24 | the tag of a declared type reads back to that type |
| Notifications.NewNotification | mylms/notifications/models.py:21-25 | a new notification belongs to the given user, has the given type and is unread |
| Notifications.UnreadCount | mylms/notifications/views.py:43-46 | a user's unread count never exceeds the table size |
| Notifications.UnreadCountZero | mylms/notifications/views.py:43-46 | the count is 0 exactly when every notification of the user is read |
| Notifications.UnreadCountAppend | mylms/notifications/views.py:43-46 | a new notification raises only its own user's count, by one when it is unread |
| Notifications.MarkRead | mylms/notifications/views.py:19-23 | only the caller's own notification is found (otherwise 404 and nothing changes); exactly that one becomes read |
| Notifications.MarkReadIdempotent | mylms/notifications/views.py:19-23 | marking the same notification twice is marking it once |
| Notifications.MarkAllRead | mylms/notifications/views.py:32-34 | the caller's notifications become read and everyone else's are untouched |
| Notifications.MarkAllReadClears | mylms/notifications/views.py:32-34 | afterwards the caller has nothing unread and every other user's count is unchanged |
| Notifications.UnreadCountOthers | mylms/notifications/views.py:43-46 | two tables that agree on a user's notifications give that user the same count |
| Notifications.ListIds | mylms/notifications/views.py:8-10 | the listing holds exactly the ids of the caller's notifications, newest first |
| Certificates.Take | mylms/certificates/models.py:14 | `s[:n]` keeps the first `min(n, len(s))` characters |
| Certificates.SaveCode | mylms/certificates/models.py:12-15 | `save` fills in a code only when the certificate has none, built from the owner's id, the course's id and the random hex; an existing code is kept |
| Certificates.GenerateCode | mylms/certificates/models.py:14 | the code built from the owner's id, the course's id and the first eight hex characters upper-cased, dash-separated; it has no contract of its own, and Certificates.GeneratedCodeHasShape and Certificates.GeneratedCodeVerifies state that it passes the verification form |
| Certificates.SaveCodeStable | mylms/certificates/models.py:12-15 | saving a second time, with any random value, keeps the code of the first save |
| Certificates.Join3 | mylms/certificates/forms.py:14-16 | three pieces joined by dashes read as `a-b-c` |
| Certificates.ShapeIndex | mylms/certificates/forms.py:14-16 | the character at each position of `a-b-c`: from `a`, a dash, from `b`, a dash, from `c` |
| Certificates.MatchesCodeBodyIff | mylms/certificates/forms.py:14-16 | splitting at the dashes into digits, digits and upper-case-or-digit pieces accepts exactly the strings of the pattern `[0-9]+-[0-9]+-[A-Z0-9]+` |
| Certificates.MatchesCodePattern | mylms/certificates/forms.py:14-16 | the pattern as `re` runs it: the body alone, or the body followed by one final newline, because `$` also matches before a trailing newline; Certificates.StrippedHasNoFinalNewline shows the second case cannot arise after the field strips its input |
| Certificates.ShapeSplits | mylms/certificates/forms.py:14-16 | a string of the pattern's shape splits at its dashes into its three parts |
| Certificates.CleanCode | mylms/certificates/forms.py:6-19 | the verification field accepts exactly a stripped, non-empty code of at most 50 characters of the pattern's shape; a blank value reports only "required"; otherwise each failing check (length, pattern) is reported |
| Certificates.StrippedHasNoFinalNewline | mylms/certificates/forms.py:14-16 | after stripping, the `$` that may precede a final newline matches only at the end, so the pattern is the plain shape |
| Certificates.GeneratedCodeHasShape | mylms/certificates/views.py:107 | every generated code has the verification pattern's shape when the random hex yields at least one character |
| Certificates.GeneratedCodeVerifies | mylms/certificates/views.py:107 | the verification form accepts every generated code that fits in 50 characters, unchanged |
| Certificates.ShapeCharacters | mylms/certificates/forms.py:14-16 | a matching code consists only of digits, upper-case letters and exactly two interior dashes with a non-empty run between them |
| Certificates.LowercaseRejected | mylms/certificates/forms.py:14-16 | a code with a lower-case letter anywhere is refused |
| Certificates.MissingSegmentRejected | mylms/certificates/forms.py:14-16 | a code with fewer than two dashes is refused |
| Certificates.ViewRules | mylms/certificates/views.py:38-46 | admins may open every certificate; anyone but the admin or the course's instructor may open exactly their own |
| Certificates.MayViewCertificate | mylms/certificates/views.py:43-46 | who may open a certificate: its owner, the course's instructor or an administrator; Certificates.ViewRules and Certificates.ListedMayBeViewed state its cases |
| Certificates.VisibleCertificates | mylms/certificates/views.py:17-29 | the listing holds exactly the certificates of the student, of the teacher's courses, or all of them for an admin, and nothing else |
| Certificates.ListedMayBeViewed | mylms/certificates/views.py:17-51 | every certificate the listing shows may also be opened by the same user |
| Certificates.GenerateRules | mylms/certificates/views.py:73-104 | students are refused; an issue happens only for an admin or the course's instructor, an existing student-role user with an enrolment of any status and no certificate, and, for a teacher, with every lesson of the course completed; an existing certificate always prevents an issue |
| Certificates.GenerateDecision | mylms/certificates/views.py:73-104 | the outcome of the generate view's guard chain, in the view's order; Certificates.GenerateRules, Certificates.EnrollmentCheckedFirst and Certificates.ZeroLessonCourse state what it lets through |
| Certificates.EnrollmentCheckedFirst | mylms/certificates/views.py:86-91 | the enrolment lookup comes first: without an enrolment the answer is not found, whether or not a certificate exists |
| Certificates.ZeroLessonCourse | mylms/certificates/views.py:94-104 | for a course with no lessons the teacher's completion check passes, while the course-progress serializer and the progress page never call such a course completed |
| CourseAccess.IsEnrolledOrInstructor | mylms/courses/permissions.py:26-54 | anonymous users are refused, admins always pass, a teacher passes exactly on their own course, a student exactly with an enrolment whose status is enrolled |
| CourseAccess.FormerStudentsRefused | mylms/courses/permissions.py:46-52 | a student whose enrolment is completed or dropped is refused like one without an enrolment |
| CourseAccess.CourseQuizzes | mylms/courses/views.py:70 | the course's quizzes are exactly the quizzes of the table whose course is this one |
| CourseAccess.CourseDetail | mylms/courses/views.py:34-111 | the page counts as enrolled exactly for a student with an enrolled enrolment; only then does it list every lesson of the course in order with the student's status and every quiz with its status and score; otherwise neither list is built |
| CourseAccess.EnrollmentStatsOf | mylms/courses/views.py:272-279 | the total is the number of the course's enrolments; active, completed and dropped never exceed it and add up to it exactly when no enrolment carries another status tag |
| CourseAccess.LessonStatOf | mylms/courses/views.py:285-301 | one lesson's not-started, in-progress and completed counts add up to all its progress records; the completion rate is a percentage, 0 without records, and 100 exactly when it has records and all are completed |
| CourseAccess.RecordsPartition | mylms/courses/views.py:286-292 | a lesson's records split into the three statuses, and all are completed exactly when the completed count equals the record count |
| CourseAccess.LessonStats | mylms/courses/views.py:282-301 | the statistics page has one row per lesson of the course, in table order, each that lesson's figures |
| CourseAccess.Answerers | mylms/courses/views.py:311-317 | the users grouped by the quiz's answers are exactly those of the table who answered some question of the quiz |
| CourseAccess.AnsweredIffAttempter | mylms/courses/views.py:311-312 | a user answered some question of the quiz exactly when they are one of its distinct attempters |
| CourseAccess.AnswerUsersListed | mylms/courses/views.py:311-312 | the user ids given are the users table's: each once, and the user of every answer among them |
| CourseAccess.AnswerersDistinct | mylms/courses/views.py:311-312 | users listed once each give answerers listed once each |
| CourseAccess.AnswerersAreAttempters | mylms/courses/views.py:311-312 | over the users table, the answerers are the quiz's distinct attempters, each once, so there are as many as attempters |
| CourseAccess.CourseQuizStatFor | mylms/courses/views.py:307-330 | attempts is the number of distinct users who answered; the average is the mean of their per-user totals, 0 when nobody answered; the percentage is that mean against the quiz's marks, 0 for a quiz worth no marks; over the users table the users averaged are every attempter, each once, as many as the attempts |
| CourseAccess.AverageScoreNonNegative | mylms/courses/views.py:320-322 | with marks never negative, the mean of per-user totals is never negative |
| CourseAccess.MaxScore | mylms/courses/views.py:320-322 | the largest per-user total bounds every total of the list |
| CourseAccess.EnrolledUsers | mylms/courses/serializers.py:61 | the users iterated are exactly those of the table whose enrolment in the course is enrolled |
| CourseAccess.EnrolmentUsersListed | mylms/courses/serializers.py:61 | the user ids given are the users table's: each once, and the user of every enrolment among them |
| CourseAccess.EnrolledUsersDistinct | mylms/courses/serializers.py:61 | users listed once each give enrolled users listed once each |
| CourseAccess.EnrolledUsersAreEnrolments | mylms/courses/serializers.py:61 | over the users table, the users iterated are every user with an enrolled enrolment in the course, each once |
| CourseAccess.RowCompletedAtMost | mylms/courses/serializers.py:68-73 | for one user the completed entries never exceed the entries |
| CourseAccess.CompletedEntriesAtMost | mylms/courses/serializers.py:68-73 | over all users the completed entries never exceed the entries |
| CourseAccess.CompletionRateBounds | mylms/courses/serializers.py:60-78 | the lesson completion rate is a percentage, and 0 without enrolled users or without any progress entry |
| CourseAccess.CompletionRateOf | mylms/courses/serializers.py:60-78 | completed progress entries as a percentage of all entries over the users whose enrolment in the course is enrolled and the course's lessons, 0 without such users; CourseAccess.CompletionRateBounds, CourseAccess.EnrolledUsersAreEnrolments and CourseAccess.LessonCompletionRate state its range, that the users are the course's enrolled users and that the loop computes it |
| CourseAccess.LessonCompletionRate | mylms/courses/serializers.py:60-78 | the nested loop over the course's enrolled users and its lessons computes the completed entries as a percentage of all entries, 0 when there are none |
| CourseAccess.AnswersOf | mylms/courses/serializers.py:90 | a question has at most one answer per user |
| CourseAccess.AnswersOfBounded | mylms/courses/serializers.py:90-93 | each answer listed for a question is one of the table, so it keeps any bound on the table's marks |
| CourseAccess.TimesAdd | mylms/courses/serializers.py:97 | repeated addition distributes over a sum of counts |
| CourseAccess.TimesIsProduct | mylms/courses/serializers.py:97 | repeated addition of a bound is the product |
| CourseAccess.MarksOfBounds | mylms/courses/serializers.py:92-93 | the marks of a question's answers add up to between 0 and the count times the bound |
| CourseAccess.TotalScoreBounds | mylms/courses/serializers.py:89-93 | the quiz's answers add up to between 0 and the number of answers times the per-answer bound |
| CourseAccess.TotalScore | mylms/courses/serializers.py:89-93 | the sum of the marks of the listed users' answers to the quiz's questions; CourseAccess.EveryAnswerCounted shows that over the users table this is every answer's marks, and CourseAccess.TotalScoreBounds bounds it |
| CourseAccess.KeyMarksRemove | mylms/courses/serializers.py:92-93 | the marks of a set of answers add up to the same whichever answer is taken first |
| CourseAccess.MarksOfPrepend | mylms/courses/serializers.py:92-93 | an answer in front adds its marks to the sum |
| CourseAccess.AnswersOfListed | mylms/courses/serializers.py:90-93 | over users listed once each, the answers collected for a question are exactly the table's answers to it by those users, in number and in marks |
| CourseAccess.EveryAnswerCounted | mylms/courses/serializers.py:85-93 | over the users table, the answers counted are every answer in the table to the quiz's questions, and the marks added are all of theirs |
| CourseAccess.AverageOfBounds | mylms/courses/serializers.py:95-97 | the per-answer average stays in the per-answer bound, and is 0 for a quiz nobody answered |
| CourseAccess.AverageOf | mylms/courses/serializers.py:95-97 | the total marks per answer, 0 without answers; CourseAccess.AverageOfBounds bounds it |
| CourseAccess.DivideBounds | mylms/courses/serializers.py:97 | a total within `n` times a bound, divided by `n`, is within the bound |
| CourseAccess.QuizAttemptStats | mylms/courses/serializers.py:80-106 | the nested loop over a quiz's questions and answers counts the answers and averages their marks per answer, 0 without answers; over the users table the count is every answer in the table to the quiz's questions and the average is over all of their marks |
| Lessons.FindLesson | mylms/lessons/views.py:15 | the lesson found has the requested id and is in the table; none exactly when no row has that id |
| Lessons.CourseLessons | mylms/lessons/views.py:48 | the course's lessons are exactly the table's lessons of that course |
| Lessons.InsertByOrder | mylms/lessons/views.py:48 | inserting one lesson into the sorted list adds exactly that lesson |
| Lessons.InsertKeepsSorted | mylms/lessons/views.py:48 | inserting into a list sorted by order keeps it sorted |
| Lessons.SortByOrder | mylms/lessons/views.py:48 | `order_by('order')` is a permutation of its input |
| Lessons.SortIsSorted | mylms/lessons/views.py:48 | `order_by('order')` is non-decreasing in order |
| Lessons.SortedMembers | mylms/lessons/views.py:48 | sorting keeps the list's length and exactly its lessons |
| Lessons.Neighbours | mylms/lessons/views.py:50-58 | the navigation loop returns the lessons immediately before and after the current one in the sorted list, nothing before the first or after the last, and nothing when the lesson is not in the list |
| Lessons.NeighboursBracket | mylms/lessons/views.py:53-58 | in the sorted list the previous lesson's order is at most the current one's and the next lesson's at least |
| Lessons.LessonsAfter | mylms/lessons/views.py:115-118 | the filter keeps exactly the course's lessons whose order is strictly greater |
| Lessons.NextLessonAfterIsLeast | mylms/lessons/views.py:115-124 | the next lesson is a lesson of the same course with the smallest order strictly above the current one; there is none exactly when no lesson of the course comes later |
| Lessons.NextLessonAfter | mylms/lessons/views.py:115-118 | the redirect target after a completion: the first by order of the course's lessons with a greater order; Lessons.NextLessonAfterIsLeast states that it is the least later lesson |
| Lessons.SortedHeadLeast | mylms/lessons/views.py:118 | the first of a sorted list has the smallest order |
| Lessons.MaxOrder | mylms/lessons/views.py:137 | the largest order is the order of some lesson and bounds all of them |
| Lessons.NextOrderIsFresh | mylms/lessons/views.py:135-139 | the order offered for a new lesson is above every order in the course, exactly one above the largest, and 1 exactly when the course has no lessons |
| Lessons.NextOrder | mylms/lessons/views.py:135-139 | the order offered for a new lesson: the largest order of the course plus 1, or 1; Lessons.NextOrderIsFresh states that it is above every existing order |
| Lessons.DistinctTail | mylms/lessons/views.py:48 | the tail of a list with distinct ids has distinct ids, none equal to the head's |
| Lessons.CourseLessonsDistinct | mylms/lessons/views.py:48 | filtering by course keeps ids distinct |
| Lessons.InsertKeepsDistinct | mylms/lessons/views.py:48 | inserting a lesson with a new id keeps ids distinct |
| Lessons.SortKeepsDistinct | mylms/lessons/views.py:48 | sorting keeps ids distinct |
| Lessons.NavigationDistinct | mylms/lessons/views.py:48-58 | the sorted navigation list of a course has distinct ids, so the lesson being viewed appears in it at most once |
| Lessons.NewLessonId | mylms/lessons/views.py:146 | the id a saved lesson receives is above every id in the table |
| Lessons.AppendKeepsDistinct | mylms/lessons/views.py:146 | appending a lesson with a new id keeps the ids distinct |
| Lessons.SetOrder | mylms/lessons/views.py:241-243 | one assignment sets the order of the lesson with that id and keeps every other lesson and every other column |
| Lessons.SameIdsFind | mylms/lessons/views.py:241 | lists with the same ids at every position find the same ids and are both uniquely keyed or both not |
| Lessons.LastOrderFor | mylms/lessons/views.py:240 | the order the last pair for an id assigns; none exactly when no pair names it |
| Lessons.ApplyOrderPairs | mylms/lessons/views.py:240-243 | the loop applies the pairs in order until the first id that names no lesson, and reports how many were applied; ids and positions never change |
| Lessons.ReorderedSameIds | mylms/lessons/views.py:240-243 | reordering keeps every lesson's id at its position |
| Lessons.ReorderedStep | mylms/lessons/views.py:240-243 | applying one more pair is one more assignment |
| Lessons.ReorderedFrame | mylms/lessons/views.py:240-243 | after the loop each lesson keeps its id, course and title, has the order of the last pair naming it, and a lesson no pair names is untouched; the course of the lesson is never checked |
| Lessons.Reordered | mylms/lessons/views.py:240-243 | the lessons after the reorder loop, each pair assigning its order in turn; Lessons.ReorderedSameIds, Lessons.ReorderedStep and Lessons.ReorderedFrame state its effect |
| Lessons.FoundPrefix | mylms/lessons/views.py:240-241 | the number of leading pairs whose ids name lessons; the next pair, if any, names none |
| Progress.ParseStatus | mylms/progress/views.py:141-148 | a status is accepted exactly when it is one of the three tags, and it maps back to that tag |
| Progress.StatusOf | mylms/progress/views.py:36-43 | the status shown is the record's, or not started when the user has no record |
| Progress.UpsertProgress | mylms/progress/serializers.py:17-36 | the pair gets a record; a given status is stored, and without one an existing record keeps its status and a new one starts not started; nothing else changes |
| Progress.UpsertProgressIdempotent | mylms/progress/serializers.py:25-34 | creating a second time with the same input changes nothing, and creating without a status leaves an existing record alone |
| Progress.ViewedStatus | mylms/lessons/views.py:37-45 | viewing a lesson never leaves it not started and keeps it completed exactly when it was |
| Progress.ViewingIsMonotone | mylms/lessons/views.py:37-45 | viewing again changes nothing, and in-progress and completed records are kept |
| Progress.CountWith | mylms/progress/serializers.py:79-89 | a status count never exceeds the number of lessons |
| Progress.CountWithSnoc | mylms/progress/serializers.py:79-89 | one more lesson adds one to the count of its own status only |
| Progress.CountsPartition | mylms/progress/serializers.py:79-89 | completed, in-progress and not-started counts add up to the number of lessons |
| Progress.CountStatuses | mylms/progress/serializers.py:75-89 | the counter loop counts each status, a lesson without a record counting as not started, and the three add up to the lessons |
| Progress.LessonRows | mylms/progress/views.py:32-52 | the lesson loop gives one row per lesson in order, with the record's status, and counts the completed ones |
| Progress.RowFor | mylms/progress/views.py:35-52 | one lesson row: the record's status, not started without a record, and whether a record exists; Progress.LessonRows builds the list from it |
| Progress.PercentageBounds | mylms/progress/views.py:55-56 | the completion percentage is between 0 and 100, is 100 exactly when there are lessons and all are completed, and is 0 for a course without lessons |
| Progress.Percentage | mylms/progress/views.py:55-56 | completed over total times 100, and 0 without lessons; Progress.PercentageBounds states its range and when it is 100 |
| Progress.QuizStatus | mylms/progress/views.py:72-77 | a quiz is not started exactly when nothing is answered, in progress exactly when some but not all questions are, completed otherwise |
| Progress.AnsweredCount | mylms/progress/views.py:69-70 | the distinct questions answered never exceed the quiz's questions |
| Progress.QuizRowRules | mylms/progress/views.py:62-92 | a quiz row's status follows its answered count, a completed quiz has every question answered and at least one question, only a completed quiz has a score, and a quiz worth no marks shows 0% |
| Progress.MarksSum | mylms/progress/views.py:82 | the sum of the user's marks over the quiz's questions, 0 without answers (`Sum(...) or 0`); QuizStats.MarksSumNonNegative bounds it below |
| Progress.QuizRowFor | mylms/progress/views.py:62-92 | one quiz row: answered count, status, score only when completed, and percentage; Progress.QuizRowRules states its rules |
| Progress.QuizRows | mylms/progress/views.py:59-92 | the quiz loop gives one row per quiz of the course, in table order |
| Progress.CompletionVerdict | mylms/progress/views.py:95 | the page calls a course completed exactly when it has lessons, all are completed and every quiz is completed; a lesson-less course never completes |
| Progress.IsCompleted | mylms/progress/views.py:95 | the page's verdict: 100% of the lessons and every quiz row completed; Progress.CompletionVerdict states when it holds |
| Progress.SerializerIgnoresQuizzes | mylms/progress/serializers.py:92-97 | the serializer's completion uses the lessons alone, so whatever the page completes, the serializer completes too |
| Progress.SerializerCompletes | mylms/progress/serializers.py:91-97 | the serializer's completion test on the lessons alone; Progress.SerializerIgnoresQuizzes states when it holds |
| Quizzes.ParseQuestionType | mylms/quizzes/models.py:16-28 | a question type is accepted exactly when it is one of the three tags, `MCQ` being multiple choice |
| Quizzes.NewAnswer | mylms/quizzes/models.py:35-40 | a new answer row is not correct and has no marks |
| Quizzes.Weight | mylms/quizzes/serializers.py:96 | a question's weight is non-negative, and the quiz's questions together are worth exactly its total marks |
| Quizzes.Norm | mylms/quizzes/serializers.py:94 | the comparison form `lower().strip()` has no surrounding whitespace and is never longer than the text |
| Quizzes.GradeNormalised | mylms/quizzes/serializers.py:92-115 | on normalised texts an answer is correct exactly when the texts are equal, and then earns the whole weight; an incorrect one earns nothing, or half the weight for a short answer |
| Quizzes.GradeAnswer | mylms/quizzes/serializers.py:88-115 | `grade_answer` marks an answer correct exactly when its lower-cased, stripped text equals the lower-cased, stripped correct answer, and a correct answer earns the whole weight |
| Quizzes.NormalisedGradeBounds | mylms/quizzes/serializers.py:92-115 | the marks lie between 0 and the weight, an answer is correct exactly when the normalised texts are equal, and then it earns the full weight |
| Quizzes.ChoiceGrading | mylms/quizzes/serializers.py:92-96 | a multiple-choice or true/false answer is correct, with the full weight, exactly when the lower-cased stripped texts are equal, and earns nothing otherwise |
| Quizzes.ShortAnswerTiers | mylms/quizzes/serializers.py:98-115 | a short answer earns the full weight for equal texts, half the weight when one text contains the other, and nothing otherwise |
| Quizzes.BlankShortAnswerEarnsHalf | mylms/quizzes/serializers.py:108-111 | a short answer that is blank after stripping is contained in every expected answer, so it earns half the weight unless the expected answer is blank too |
| Quizzes.MarksWithinWeight | mylms/quizzes/serializers.py:88-115 | every grade lies between 0 and the weight; correct exactly when the normalised texts agree, and then worth the whole weight |
| Quizzes.GradeIgnoresSurroundingSpace | mylms/quizzes/serializers.py:94 | whitespace around an answer does not change its grade |
| Quizzes.ScoreOfMatching | mylms/quizzes/serializers.py:96 | answers that all match earn the weight once per question |
| Quizzes.AllCorrectScoresTotal | mylms/quizzes/serializers.py:96 | when every question is answered correctly, the marks add up to the quiz's total marks |
| Quizzes.QuizQuestions | mylms/quizzes/serializers.py:45 | the quiz's questions are exactly the table's questions of that quiz |
| Quizzes.GradedAnswer | mylms/quizzes/serializers.py:95-117 | the saved answer keeps the text and carries the grade's correctness and marks |
| Quizzes.SubmitAnswer | mylms/quizzes/serializers.py:67-86 | the user's answer to the question is created or has its text overwritten, and is graded; every other answer is untouched |
| Quizzes.ResubmissionOverwrites | mylms/quizzes/serializers.py:75-81 | submitting twice keeps only the second submission, and an existing answer gets no second row |
| Quizzes.OptionsList | mylms/quizzes/serializers.py:19-25 | the options list is the stored list of a multiple-choice question, and empty for other types, missing options and text that is not a list |
| Quizzes.ValidQuestionData | mylms/quizzes/serializers.py:27-33 | the question serializer refuses exactly a multiple-choice question without options |
| Quizzes.ValidQuizCourse | mylms/quizzes/serializers.py:47-52 | the quiz serializer refuses exactly a teacher naming a course they do not instruct |
| Quizzes.QuizCreationRules | mylms/quizzes/serializers.py:47-52 | a teacher who passes the course check instructs the course; admins pass both the course check and the staff check |
| Quizzes.CleanLines | mylms/quizzes/forms.py:39 | the cleaned option lines are stripped, non-empty, and no more than the lines given; Quizzes.CleanLinesMembers and Quizzes.CleanLinesOrder state that they are exactly the stripped non-blank input lines, in order |
| Quizzes.CleanLinesAppend | mylms/quizzes/forms.py:39 | cleaning the lines of two parts one after the other gives the options of the first part followed by those of the second |
| Quizzes.CleanLinesMembers | mylms/quizzes/forms.py:39 | a text is an option exactly when it is non-empty and is the stripped form of some input line |
| Quizzes.CleanLinesOrder | mylms/quizzes/forms.py:39 | options keep the order of their lines: a non-blank line at position i gives the option right after the options of the lines before it |
| Quizzes.CleanLinesOfClean | mylms/quizzes/forms.py:39 | lines already stripped and non-empty come back unchanged |
| Quizzes.CleanOptions | mylms/quizzes/forms.py:30-47 | for multiple choice, blank options are refused as required; otherwise fewer than two cleaned lines is refused as too few, and an accepted value is exactly the list of cleaned lines (the stripped non-blank input lines, in order), at least two long; other types keep their stripped text |
| Quizzes.OptionsRoundTrip | mylms/quizzes/forms.py:30-47 | submitting the options one per line gives the same option list back when there are at least two and each is stripped, non-empty and free of newlines |
| Quizzes.CleanQuestion | mylms/quizzes/forms.py:49-65 | a multiple-choice correct answer must be one of the cleaned options, case included; a true/false one must be `true` or `false` in any case; a true/false question without a valid correct answer fails with a server error |
| Quizzes.FieldName | mylms/quizzes/forms.py:76 | every field name starts with `question_` |
| Quizzes.FieldNameInjective | mylms/quizzes/forms.py:76 | different questions get different field names |
| Quizzes.AttemptFields | mylms/quizzes/forms.py:69-98 | one field per question, with the stored options for multiple choice, true/false for true/false, free text otherwise; the form fails when a multiple-choice question has no stored list |
| QuizStats.MatchCount | mylms/quizzes/views.py:189-192 | the count of answers choosing an option never exceeds the answers |
| QuizStats.MatchCountSnoc | mylms/quizzes/views.py:189-192 | one more answer adds one exactly to the option it equals |
| QuizStats.Distribution | mylms/quizzes/views.py:181-192 | the distribution has exactly the question's options as keys, and each maps to the number of answers whose text is exactly that option; other texts count nowhere |
| QuizStats.Dedup | mylms/quizzes/views.py:185-186 | the distinct options, each once |
| QuizStats.HitsOfDistinct | mylms/quizzes/views.py:189-192 | among distinct options an answer text equals at most one |
| QuizStats.CountedCons | mylms/quizzes/views.py:189-192 | one more answer adds to the options' total only the options it equals |
| QuizStats.CountedOfNoAnswers | mylms/quizzes/views.py:189-192 | without answers every option counts 0 |
| QuizStats.CountedAtMostAnswers | mylms/quizzes/views.py:189-192 | the counts of distinct options add up to at most the number of answers |
| QuizStats.DistributionTotal | mylms/quizzes/views.py:181-192 | the distribution's keys are the distinct options, and its counts add up to at most the number of answers |
| QuizStats.CorrectCount | mylms/quizzes/views.py:176 | the correct answers never exceed the answers |
| QuizStats.Texts | mylms/quizzes/views.py:190 | the texts of the answers, in order |
| QuizStats.StatFor | mylms/quizzes/views.py:174-200 | one question's figures: its answers, the correct ones, the success rate as a percentage of correct answers (0 without answers) and, exactly for multiple choice, the option distribution; the page fails for a multiple-choice question without a stored list |
| QuizStats.SuccessRateBounds | mylms/quizzes/views.py:198 | a success rate is between 0 and 100, and 0 for a question nobody answered |
| QuizStats.StudentScores | mylms/quizzes/views.py:148-164 | one row per student given, with the sum of their marks on the quiz and its percentage of the total marks (0 for a quiz worth no marks); when the students are the quiz's attempters, each once, there is one row per attempter |
| QuizStats.Attempters | mylms/quizzes/views.py:143 | the distinct users with an answer to some question of the quiz; CourseAccess.AnsweredIffAttempter relates it to the answered count |
| QuizStats.SumScoresBounds | mylms/quizzes/views.py:167-169 | the sum of scores lies between the count times the lowest and the count times the highest bound |
| QuizStats.AverageBetween | mylms/quizzes/views.py:167-169 | the average score lies between the lowest and the highest score |
| QuizStats.AverageScore | mylms/quizzes/views.py:167-169 | the mean of the students' scores, 0 without students; QuizStats.AverageBetween bounds it by the lowest and highest score |
| QuizStats.MarksSumNonNegative | mylms/quizzes/views.py:159 | marks are never negative, so neither are scores |
| Middleware.DigitRun | mylms/core/middleware.py:23 | the leading run of digits: every character in it is a digit and the one after it is not |
| Middleware.MatchEnd | mylms/core/middleware.py:57-58 | a match, when there is one, ends inside the path |
| Middleware.IdMatchIsRegex | mylms/core/middleware.py:23-49 | the greedy reading of `pre\d+post` ends a match exactly where the regular expression does: a non-empty digit run after `pre` followed by `post` |
| Middleware.Decide | mylms/core/middleware.py:60-62 | a login redirect carries the requested path as `next` |
| Middleware.AnonymousRules | mylms/core/middleware.py:57-62 | an anonymous visitor is redirected to the login exactly on a secure path that is not a public exception, and otherwise passes; role checks never apply to them, so `/admin/` lets them through |
| Middleware.RequiresAuth | mylms/core/middleware.py:11-19 | the secure paths: `/courses/` followed by something (the `(?!$)` lookahead) or one of the other six prefixes; Middleware.AnonymousRules states how it decides a redirect |
| Middleware.PublicException | mylms/core/middleware.py:21-24 | the public exceptions `^/courses/$` and `^/courses/\d+/$`; Middleware.PublicCoursePages states which course pages they open |
| Middleware.DigitRunOfDigits | mylms/core/middleware.py:23 | the digit run of digits followed by a non-digit is exactly those digits |
| Middleware.PublicCoursePages | mylms/core/middleware.py:11-24 | the course list and every `/courses/<id>/` page pass without a login, while `/courses/<id>/enroll/` redirects to the login |
| Middleware.MatchStartsWithHead | mylms/core/middleware.py:57 | a path a pattern matches begins with the pattern's leading literal |
| Middleware.OutsideAdmin | mylms/core/middleware.py:67 | a path a pattern matches whose second character is not `a` lies outside `/admin/` |
| Middleware.RoleHeads | mylms/core/middleware.py:29-50 | every teacher and student pattern begins with a literal whose second character is not `a` |
| Middleware.RolePathsAreNotAdminPaths | mylms/core/middleware.py:26-50 | paths reserved to teachers or students never lie under `/admin/` |
| Middleware.RoleRules | mylms/core/middleware.py:64-79 | for a signed-in user, `/admin/` refuses everyone but admins, teacher paths refuse students exactly, student paths refuse teachers and admins, and every other path passes |
| Middleware.TeacherOnly | mylms/core/middleware.py:29-44 | the fourteen teacher-only patterns; Middleware.RoleRules and Middleware.RolePathsAreNotAdminPaths state how they gate |
| Middleware.StudentOnly | mylms/core/middleware.py:45-50 | the four student-only patterns; Middleware.RoleRules states how they gate |
| Middleware.SecurityHeaders | mylms/core/middleware.py:83-88 | the three fixed headers with their values are always set, and Strict-Transport-Security exactly when DEBUG is off |
| Middleware.Respond | mylms/core/middleware.py:52-90 | a request is let through exactly when the gate passes it, with the view's headers overwritten by the security headers; a login refusal redirects to the login page with `next`, a role refusal to the dashboard |
| Middleware.PassedResponsesAreHardened | mylms/core/middleware.py:81-90 | every response let through carries the fixed headers whatever the view set, and HSTS exactly when DEBUG is off or the view set it |
| AdminForms.CleanRole | mylms/core/admin_forms.py:49-54 | the role field accepts exactly the declared role tags and yields their role; an empty value is reported as required, any other unknown one as an invalid choice |
| AdminForms.NameErrorsOf | mylms/core/admin_forms.py:9-37 | a name field's errors are reported under that field, every one of them and nothing else |
| AdminForms.CleanUserForm | mylms/core/admin_forms.py:6-160 | the user forms are valid exactly when both names, the email (unique among the other users) and the role are; a valid form yields the stripped names and email and the parsed role |
| AdminForms.UserFormErrorsReported | mylms/core/admin_forms.py:6-160 | an invalid user form carries each field's own errors, field by field, and no other error |
| AdminForms.AdminFormsOfferAdmin | mylms/core/admin_forms.py:49-54 | the administrators' forms accept the admin role, which registration refuses |
| AdminForms.EditAcceptsOwnEmail | mylms/core/admin_forms.py:155-160 | editing a user with their own email is valid, while creating a user with the same email fails on the email field only |
| AdminForms.CleanPasswordReset | mylms/core/admin_forms.py:162-191 | the reset form is valid exactly when the first password is given and the two agree, and yields it as typed; each missing field is reported, and a mismatch only when both are given |
| AdminForms.PasswordResetRules | mylms/core/admin_forms.py:183-191 | an empty password is never reported as a mismatch, and whitespace passwords are kept unstripped |
| AdminForms.ParseRecipient | mylms/core/admin_forms.py:196-201 | exactly the four recipient tags are recognised, each parsing to the choice it names |
| AdminForms.CleanRecipient | mylms/core/admin_forms.py:229-235 | the recipient field accepts exactly the four tags; an empty value is reported as required |
| AdminForms.CleanSendForm | mylms/core/admin_forms.py:193-261 | the send form is valid exactly when the stripped title is present and at most 255 characters, the message present, the recipient known, and a course is chosen for a course recipient; each failing rule is reported, and only those |
| AdminForms.CourseRecipientNeedsCourse | mylms/core/admin_forms.py:253-261 | a course notification without a course or with the placeholder 0 is refused, and one with any other course id and valid text is accepted with that course |
| AdminViews.UserList | mylms/core/admin_views.py:28-47 | the listed users are exactly those passing the role filter (when given) and matching the search in username, email, first or last name (when given), so a search never leaves the filtered role |
| AdminViews.AdminGate | mylms/core/admin_views.py:19-24 | `user_passes_test(is_admin)`: an authenticated administrator; Store.Lms.DeleteUser and Store.Lms.SendNotification state that nothing changes without it |
| AdminViews.MatchesSearch | mylms/core/admin_views.py:38-47 | the OR of the four `icontains` lookups; AdminViews.SearchIgnoresCase states that the query's case does not matter |
| AdminViews.Listed | mylms/core/admin_views.py:28-47 | the role filter, skipped when empty, then the search, skipped when empty; AdminViews.UserList states that the listing is exactly the users passing it |
| AdminViews.SearchIgnoresCase | mylms/core/admin_views.py:38-47 | the search gives the same list whatever the case of the query |
| AdminViews.UnknownRoleListsNobody | mylms/core/admin_views.py:35-36 | a role filter that names no role lists nobody |
| AdminViews.CountRole | mylms/core/admin_views.py:50-53 | a role count never exceeds the number of users |
| AdminViews.RoleCountsPartition | mylms/core/admin_views.py:50-53 | the student, teacher and administrator counts add up to the total |
| AdminViews.DeleteDecision | mylms/core/admin_views.py:117-135 | a missing user is not found, the requester's own account is refused, and a user is deleted exactly when found, not the requester and the request is a POST |
| AdminViews.RemoveUser | mylms/core/admin_views.py:128 | deleting removes exactly the users with that id |
| AdminViews.NoSelfDeletion | mylms/core/admin_views.py:121-123 | an administrator's own account is never deleted and, when stored, is refused |
| AdminViews.TeacherCompleted | mylms/core/admin_views.py:182 | the completed enrolments are among the teacher's enrolments |
| AdminViews.TeacherCompletionRate | mylms/core/admin_views.py:179-183 | the completion rate lies between 0 and 100, is 0 without enrolments, and is 100 exactly when the teacher has enrolments and all are completed |
| AdminViews.UsersOfAtMost | mylms/core/admin_views.py:169-171 | the distinct students never outnumber the enrolments |
| AdminViews.ActiveCourseCount | mylms/core/admin_views.py:173-177 | the active courses are at most all courses |
| AdminViews.TeacherStatsOf | mylms/core/admin_views.py:164-192 | the teacher's student count is at most the enrolments in their courses, the active count at most the courses, and the completion rate is the one above |
| AdminViews.StudentCountPartition | mylms/core/admin_views.py:149-154 | a student's enrolments split into enrolled, completed, dropped and otherwise-tagged ones |
| AdminViews.StudentStatsOf | mylms/core/admin_views.py:143-162 | the total counts all the student's enrolments, the three status counts never exceed it, and add up to it exactly when no enrolment carries another status tag |
| AdminViews.CourseIdOf | mylms/core/admin_views.py:312-321 | a course id is read exactly from a non-empty string of digits |
| AdminViews.CourseRecipients | mylms/core/admin_views.py:318-321 | the course recipients are exactly the users holding an enrolled enrolment in the course |
| AdminViews.UsersWithRole | mylms/core/admin_views.py:307-310 | the users with a role are exactly those of the table with it, as many as the role count |
| AdminViews.SelectRecipients | mylms/core/admin_views.py:293-324 | an absent or empty title or message is refused first, then an unknown recipient type, then a course recipient without a course id; a request is accepted exactly when title and message are present and not empty, the type is one of the four, and a course recipient has a course id that reads as a number; accepted recipients are everyone, the students, the teachers, or the enrolled users of the course |
| AdminViews.SentType | mylms/core/admin_views.py:333 | an absent or empty type becomes general, and any other tag is kept |
| AdminViews.Announcements | mylms/core/admin_views.py:328-334 | one new unread notification per recipient, in order, with the given title, message and type |
| AdminViews.AnnouncementsUnread | mylms/core/admin_views.py:328-335 | sending raises each user's unread count by the number of times they are listed, and nobody else's |
| AdminViews.OccurrencesOfUnique | mylms/core/admin_views.py:306-321 | among recipients with distinct ids, a user is listed at most once, and once exactly when among them |
| AdminViews.FanOut | mylms/core/admin_views.py:326-335 | the loop appends the announcements to the table and counts exactly the recipients |
| AdminViews.SendNotification | mylms/core/admin_views.py:293-339 | a refused request creates nothing and reports why; otherwise one notification per recipient is appended, of the given type or general, and the reported count is the number of recipients |
| Store.NewCertificate | mylms/certificates/models.py:12-15 | a certificate created without a code belongs to the pair and gets the code `save` builds from the two ids and the random hex |
| Store.Consistent | mylms/certificates/models.py:9 | the stored state every endpoint keeps: distinct lesson ids (the primary key), unique certificate codes (the unique column) and one certificate per user and course (kept by the duplicate checks); every state-changing Store.Lms method ensures it |
| Store.Lms.Valid | mylms/certificates/models.py:9 | the class invariant: the tables are Store.Consistent |
| Store.AddCertificateKeepsUnique | mylms/certificates/models.py:9 | adding a certificate with a free code for a pair without one keeps the code column unique and one certificate per pair, and the pair then has its certificate |
| Store.FirstCertificate | mylms/progress/views.py:105-108 | a certificate is found exactly when the pair has one, and the one found belongs to the pair |
| Store.EnrollmentNotice | mylms/api/views.py:318-323 | the enrolment notification goes to the enrolling user, is unread and has the enrolment type |
| Store.CertificateNotice | mylms/api/views.py:425-430 | the certificate notification goes to the student, is unread and has the certificate type |
| Store.FindQuiz | mylms/api/views.py:208 | the quiz found has the requested id, and none is found exactly when no quiz has it |
| Store.FindQuestion | mylms/api/views.py:222 | the question found has the requested id and belongs to the quiz, and none is found exactly when no question of the quiz has the id |
| Store.QuizVisible | mylms/api/views.py:176-183 | the quizzes `get_queryset` lets a user reach: all for administrators, their courses' quizzes for teachers, their enrolled courses' quizzes for students; Store.Lms.SubmitAnswers states that any other quiz is not found |
| Store.QuizWeight | mylms/quizzes/serializers.py:96 | a question of the quiz is worth a non-negative share of the quiz's total marks |
| Store.ItemResultFor | mylms/api/views.py:217-246 | an item is reported missing exactly when its question is absent or not one of this quiz's, rejected exactly when the question exists but the answer text is missing or blank, and is otherwise graded; every entry names the requested question |
| Store.ApplyItem | mylms/api/views.py:217-246 | one item's effect: a graded item upserts the caller's answer to its question, any other item changes nothing; Store.EntryMatchesRow and Store.FailedItemsChangeNothing state it |
| Store.AfterItems | mylms/api/views.py:217-246 | the answer table after the items in order; Store.AfterItemsFrame, Store.LaterItemWins and Store.Lms.AnswerAll state its effect |
| Store.EntryMatchesRow | mylms/api/views.py:230-236 | a graded entry reports exactly the row stored: the trimmed text with the reported correctness and marks, the marks between 0 and the question's weight |
| Store.AfterItemsFrame | mylms/api/views.py:217-246 | submitting answers only adds or rewrites the caller's answers to questions of this quiz; no answer disappears and every other answer is unchanged |
| Store.FailedItemsChangeNothing | mylms/api/views.py:237-246 | items that are all missing or rejected change no answer |
| Store.LaterItemWins | mylms/api/views.py:217-236 | of two graded items for the same question, the later one alone decides the stored answer |
| Store.IssueRules | mylms/api/views.py:379-412 | only teachers and administrators pass the first guard; a certificate is issued only with both ids, for an existing course the requester instructs (or any course for an administrator), to a student with an enrolment and no certificate; the duplicate check comes before the enrolment check |
| Store.IssueSkipsLessonCheck | mylms/api/views.py:407-418 | the API issues a certificate to a student who has not completed the course's lessons, while the generate view refuses the same request |
| Store.IssueDecision | mylms/api/views.py:379-412 | the outcome of `issue`'s guard chain, in the view's order, ending with the unique code column; Store.IssueRules and Store.IssueSkipsLessonCheck state what it lets through |
| Store.EnrollDecisionRules | mylms/api/views.py:298-315 | an enrolment is made exactly when the course exists and the enrolment serializer's duplicate check passes; an enrolment of any status, dropped or completed included, blocks a new one |
| Store.EnrollDecision | mylms/api/views.py:298-315 | the enrol checks: a course id, an existing course, no enrolment of any status; Store.EnrollDecisionRules states when it enrols |
| Store.PageRowsDetermined | mylms/progress/views.py:29-92 | two progress pages over the same lessons, quizzes, questions, answers and progress show the same rows and percentage |
| Store.Reconcile | mylms/progress/views.py:98-102 | a completed verdict makes the enrolment completed whatever it was; no enrolment is added or removed, and no other one changes |
| Store.ReconcileIdempotent | mylms/progress/views.py:98-102 | reconciling a second time changes nothing |
| Store.SummaryOf | mylms/progress/serializers.py:67-94 | the completed, in-progress and not-started counts add up to the number of lessons, and the percentage is completed over total |
| Store.AfterSummaryConsistent | mylms/progress/serializers.py:96-121 | the summary keeps the certificate codes unique and one certificate per pair, adds at most one certificate, and one it adds is the caller's for the course |
| Store.AfterSummary | mylms/progress/serializers.py:96-121 | the tables after a summary: at 100% the enrolment completed and at most one certificate and its notification added; Store.AfterSummaryConsistent and Store.Lms.CompleteFromSummary state its effect |
| Store.LessonInNavigation | mylms/lessons/views.py:48-58 | a stored lesson is in its course's order-sorted lesson list |
| Store.CurrentStatus | mylms/lessons/views.py:37-41 | a record is found exactly when the user has one for the lesson, and then carries its status |
| Store.LessonAudience | mylms/lessons/views.py:150-153 | the users told about a new lesson are exactly those holding an enrolled enrolment in the course |
| Store.RosterAcceptsAnyTag | mylms/courses/views.py:248-254 | the roster form stores any status text; an unknown tag is kept, and the student is then not enrolled |
| Store.Lms.SubmitAnswers | mylms/api/views.py:196-248 | a quiz the caller cannot see is not found, a caller without an enrolled enrolment in its course is refused, and both change nothing; otherwise there is one entry per item in order, and only the answer table changes, as the items say in order |
| Store.Lms.AnswerAll | mylms/api/views.py:217-246 | the loop reports one entry per item, in order, and leaves the answer table the items describe; nothing else changes |
| Store.Lms.AnswerItemOf | mylms/api/views.py:218-246 | one item reports its entry and changes only the answer it grades |
| Store.Lms.Issue | mylms/api/views.py:376-432 | when issued, one certificate with the code `save` builds, the enrolment set to completed and one notification; any refusal, including a code already in use, changes nothing |
| Store.Lms.Award | mylms/api/views.py:414-430 | awarding a pair without a certificate adds its certificate, completes its enrolment and notifies the student, keeping the tables consistent |
| Store.Lms.GenerateCertificate | mylms/certificates/views.py:72-129 | when the guard chain allows it and the code is free, one certificate with the code built from the ids and the hex, the enrolment completed and one notification; otherwise nothing changes |
| Store.Lms.ApiEnroll | mylms/api/views.py:295-325 | a new enrolled enrolment with its notification, or no change at all; the role is not checked |
| Store.Lms.Enroll | mylms/enrollments/views.py:27-47 | the same checks as the API, and a new enrolled enrolment without a notification, or no change |
| Store.Lms.EnrollCourse | mylms/courses/views.py:113-144 | only students enrol; a missing course is not found and an enrolment of any status blocks another; otherwise an enrolled enrolment and its notification are added |
| Store.Lms.UpdateEnrollmentStatus | mylms/enrollments/views.py:49-61 | an enrolment outside the caller's listing is not found, a status outside the three choices is refused, and otherwise exactly that enrolment takes the status |
| Store.Lms.CourseStudents | mylms/courses/views.py:235-261 | only the instructor or an administrator may manage the roster; the request method is not a parameter: a GET is given with no enrolment and no status, and the status is updated exactly when both the enrolment and a non-empty status are given; a posted status, even an unknown one, is stored on an enrolment of the course, which must exist; the roster shown is the course's enrolments after the update |
| Store.Lms.MarkRead | mylms/api/views.py:445-451 | only the caller's own notification is found, and it alone becomes read |
| Store.Lms.MarkAllRead | mylms/api/views.py:453-457 | afterwards the caller has no unread notification and every other user's unread count is unchanged |
| Store.Lms.UnreadCount | mylms/api/views.py:459-463 | the count is the caller's unread notifications, zero exactly when all of theirs are read |
| Store.Lms.CourseProgress | mylms/progress/views.py:14-120 | students only, with an existing course and an enrolment of any status; the page shows the lesson rows by order, the percentage and the quiz rows; when the verdict holds the enrolment becomes completed and the certificate is looked up, never created; nothing else changes |
| Store.Lms.ReadRows | mylms/progress/views.py:29-92 | the rows read are one per lesson of the course by order, the completed percentage, and one per quiz of the course |
| Store.Lms.ReconcileEnrollment | mylms/progress/views.py:98-102 | a completed verdict completes the enrolment and changes nothing else |
| Store.Lms.CourseProgressTwice | mylms/progress/views.py:94-108 | a second visit shows the same page and changes nothing beyond the first |
| Store.Lms.StudentProgress | mylms/progress/views.py:152-253 | only teachers and administrators, and a teacher only for their own course; the student must have the student role and an enrolment of any status; the page shows the student's rows and certificate and changes nothing |
| Store.Lms.UpdateProgress | mylms/progress/views.py:122-150 | students only; the record must be the caller's own and its course hold their enrolled enrolment; a posted valid status is stored, anything else changes nothing, and the student is sent back to the lesson's course |
| Store.Lms.CreateProgress | mylms/progress/serializers.py:17-36 | for a stored lesson the caller's record is created or updated as `UpsertProgress` says; nothing else changes |
| Store.Lms.ProgressSummary | mylms/progress/serializers.py:64-131 | without a course id or with no such course nothing changes; otherwise the caller's lesson counts are reported, with no enrolment check, and at 100% the enrolment and certificate changes the completion block describes are made, errors in it swallowed |
| Store.Lms.CompleteFromSummary | mylms/progress/serializers.py:96-121 | at 100% an existing enrolment becomes completed, and a pair without a certificate whose new code is free gets one and a notification; a missing enrolment or a clashing code is swallowed |
| Store.Lms.ProgressSummaryTwice | mylms/progress/serializers.py:107-118 | asking twice gives the same summary and adds at most one certificate and one notification |
| Store.Lms.LessonDetail | mylms/lessons/views.py:12-82 | a missing lesson is not found; a student who does not manage the course and is not enrolled is sent to the course and nothing changes; otherwise the page shows the lesson's neighbours in the order-sorted list and, for students, its status, and only an enrolled student's view moves their record |
| Store.Lms.RecordView | mylms/lessons/views.py:36-45 | a view creates an in-progress record or moves a not-started one to in progress, and changes nothing else |
| Store.Lms.MarkLessonComplete | mylms/lessons/views.py:84-124 | students only, with an enrolled enrolment in the lesson's course; the record becomes completed whether or not it existed, and the student goes to the next lesson by order or to the course after the last |
| Store.Lms.AddLesson | mylms/lessons/views.py:141-146 | saving the form appends one lesson of the course with a fresh id, keeping lesson ids distinct |
| Store.Lms.CreateLesson | mylms/lessons/views.py:126-173 | as written: the course's manager gets a form starting at the next order; a valid post saves the lesson and then fails before any notification is made |
| Store.Lms.CreateLessonNotifying | mylms/lessons/views.py:141-164 | as intended: a valid post saves the lesson and sends one lesson-added notification to each user enrolled in the course |
| Store.Manages | mylms/lessons/views.py:132 | the staff check of the course pages: the course's instructor or an administrator; the lesson, reorder and roster methods state that nobody else changes anything |
| Store.Lms.ReorderLessons | mylms/lessons/views.py:224-255 | the course's manager posts the new orders, which are applied in order to any lesson of the table, until an id names no lesson; the orders set before that stay |
| Store.Lms.ApplyOrders | mylms/lessons/views.py:240-243 | the loop applies the pairs up to the first unknown lesson id, and reports how many it applied |
| Store.Lms.DeleteUser | mylms/core/admin_views.py:115-135 | only administrators pass; the user's row is removed only on a confirmed request for another existing user |
| Store.Lms.SendNotification | mylms/core/admin_views.py:289-339 | only administrators pass; a refused request creates nothing, otherwise each chosen recipient gets one notification and the count sent is the number of recipients |

## Left out

- Persistence: the ORM, `get_or_create` atomicity and unique-constraint races are not modelled. A view that fails after a write keeps that write, because no view runs in a transaction; `Store.Lms.CreateLesson`, `Store.Lms.ReorderLessons` and `Store.Lms.CompleteFromSummary` show this.
- Cascade deletes are not modelled. `AdminViews.RemoveUser` removes only the user row, and the deleted user's enrolments, answers, progress, certificates and notifications stay in their tables.
- Surrogate ids of answers, progress records and enrolments are replaced by the pairs the schema makes unique. The `progress_id` of `update_progress`, the `pk` of `update_status` and the `enrollment_id` of `course_students` are passed as the pair they name. A row whose foreign key names no stored row is treated as not found.
- Concurrency is not modelled; the model is single-threaded. Two racing completion checks in the source could create two certificates for one pair, since the schema does not forbid it.
- Marks are Django `FloatField`s, while the model uses exact `real` arithmetic. The `round(...)` calls in mylms/progress/serializers.py:130, mylms/courses/serializers.py:78 and 97, and mylms/core/admin_views.py:190 are dropped.
- The `uuid4().hex` suffix of a certificate code and the current date (`timezone.now()`) are parameters, so the model holds no randomness or clock.
- Timestamps are not modelled: `last_accessed`, `updated_at`, `issue_date`, `submitted_at` and `date_joined`. With them go the "recent users" count of `user_list` and the date bucketing of `system_stats`.
- `system_stats` and `course_management` are read-only listings. Their counts are the role counts, enrolment statuses and active windows modelled elsewhere, and they are not modelled again.
- `teacher_dashboard`, `create_course`, `edit_course`, `delete_course`, `edit_lesson` and `delete_lesson` are left out. They are guarded form saves with no rule beyond the instructor-or-admin check that `Store.Manages` and `Quizzes.IsCourseStaff` state.
- The question create, edit and delete views of mylms/quizzes/views.py are modelled only through their guard `Quizzes.IsCourseStaff`; their form saves are not.
- The web quiz views (`quiz_detail`, `quiz_attempt`, `quiz_submit`, `quiz_results`, `create_quiz`, `edit_quiz`) are missing from mylms/quizzes/views.py. Submission is modelled through the API only.
- The quiz-graded notification of `grade_answer` (mylms/quizzes/serializers.py:119-149) is never created. It uses `models.Sum` while `models` is not imported, and the resulting `NameError` is swallowed by the bare `except`. `Store.Lms.SubmitAnswers` therefore never changes the notifications.
- mylms/lessons/serializers.py is left out. Its progress update reads `created` before assigning it and never runs; the same transition is modelled from `lesson_detail`.
- Two import problems in the admin pages are not modelled:
  - mylms/core/admin_views.py imports its user forms from `core/forms.py`, which is not part of this model. The model takes them to be the classes in mylms/core/admin_forms.py.
  - `NotificationSendForm` reads `User.NOTIFICATION_TYPE_CHOICES`, which the user model does not declare, so the form class cannot be built as written.
- `AdminForms.CleanSendForm` does not check the notification type against its choices, because those choices do not exist as written (see the previous item). The view stores any tag, which `Notifications.TypeOfTag` keeps as `OtherType`.
- `Accounts.CleanEmail` does not model the syntax check of Django's `EmailValidator`. It keeps only the required, length and uniqueness rules; `AdminForms.CleanUserForm` inherits this.
- The username and password fields that `UserCreationAdminForm` inherits from Django's `UserCreationForm`, and the saving of users in `create_user` and `edit_user`, are framework code and are left out.
- Regular expressions are written as hand-coded predicates, not run by a regex engine. `\d` and `\s` are ASCII only, where Python's classes also accept other Unicode digits and spaces.
- Quizzes.Norm, Quizzes.GradeAnswer, Quizzes.CleanLines, Quizzes.CleanOptions, Quizzes.CleanQuestion, Accounts.CleanName, Accounts.CleanEmail, AdminForms.CleanUserForm, AdminForms.CleanSendForm, Certificates.CleanCode, Store.ItemResultFor: `lower`, `upper` and `strip` are ASCII only, so a non-ASCII capital such as the `Í` of `PARÍS` is not lower-cased and such an answer to `parís` earns nothing; Python folds it and marks it correct.
- CourseAccess.CompletionRateOf, CourseAccess.QuizAttemptStats, CourseAccess.CourseQuizStatFor: the users table is passed in as its id column. The figures cover every enrolment or answer only when those ids are the table's, each once and covering every row's user; `CourseAccess.EnrolmentUsersListed` and `CourseAccess.AnswerUsersListed` state that, and the contracts that use it are conditional on it.
- Accounts.CleanName, Certificates.CleanCode: Django's `CharField` also runs `ProhibitNullCharactersValidator`, which is not modelled. A value holding `\0` fails the name or code pattern anyway and is refused in the model too, but the model does not report the extra null-character error.
- `AdminViews.MatchesSearch`: `icontains` is modelled with ASCII case folding. The database's collation and Unicode case rules are not modelled.
- `AdminViews.CourseIdOf` reads only plain digit strings as course ids. Python's `int()` also accepts surrounding spaces, a sign and underscores.
- JSON is not modelled:
  - question options are a `seq<string>`, not the `json.loads`/`dumps` text;
  - the lesson-order mapping of `reorder_lessons` is given as its (id, order) pairs in iteration order, so duplicate keys, non-numeric keys and non-integer orders are not modelled.
- `LessonForm` and `LessonOrderForm` validation are given as an optional value: `None` means the posted form was invalid.
- The Lesson model file is not part of this model. A lesson is taken to have an id, a course, a title and an integer order, with ids assigned above every existing id; its `content` and `video_url` fields are left out.
- Rendering, templates, flash messages, CSRF and HTTP status codes are reduced to outcome tags. The login redirect of `@login_required` is left out, and the API methods assume an authenticated caller; the middleware models the anonymous visitor.
- The generic create, update and destroy actions of the DRF viewsets are left out. Only the named actions, and the `get_queryset` filters they rely on, are modelled.
- Authentication is left out: JWT login, registration and session views (mylms/api/views.py:31-72, mylms/accounts/views.py).
- Logging, the URL configurations, `admin.py` registrations, `core/views.py`, `core/context_processors.py` and the static UI script are configuration with no decision logic, and are left out.
- The PDF rendering of `download_certificate` and the lookup of `verify_certificate` are left out; the verification form's pattern is modelled by `Certificates.CleanCode`.

## Findings

| source | as written | input that shows it | evidently intended | confidence | as-written member | corrected member |
|---|---|---|---|---|---|---|
| mylms/lessons/views.py:150 | `create_lesson` saves the lesson and then calls `User.objects.filter(...)`, but `User` is never imported, so the request fails with `NameError` | any valid POST of the lesson form by the course's instructor | after saving, each user enrolled in the course receives one "New Lesson" notification and the teacher is redirected | high, not executed | Store.Lms.CreateLesson | Store.Lms.CreateLessonNotifying |
