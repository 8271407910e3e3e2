/**
 * The administrators' forms: creating and editing a user (name, email and
 * role fields), resetting a password, and composing a notification. A form
 * collects the errors of every field, as Django's `full_clean` does; the
 * cleaned values are what a valid form hands to its view.
 */
module AdminForms {
  import opened Wrappers
  import opened Text
  import opened Accounts

  /** What a choice field can report. Choice fields do not strip their
      input. */
  datatype ChoiceError = ChoiceRequired | InvalidChoice

  /** The role field of both user forms, over every declared role. */
  function CleanRole(raw: string): (r: Result<Role, ChoiceError>)
    ensures r.Ok? <==> ParseRole(raw).Some?
    ensures r.Ok? ==> RoleTag(r.value) == raw
    ensures r == Err(ChoiceRequired) <==> raw == []
  {
    match ParseRole(raw)
    case Some(role) => Ok(role)
    case None => if raw == [] then Err(ChoiceRequired) else Err(InvalidChoice)
  }

  /** The error of one field of the user forms. */
  datatype UserFormError =
    | FirstNameError(e: FieldError)
    | LastNameError(e: FieldError)
    | EmailError(e: FieldError)
    | RoleError(c: ChoiceError)

  datatype UserFields = UserFields(firstName: string, lastName: string, email: string, role: Role)

  function NameErrors(r: Result<string, set<FieldError>>, first: bool): set<UserFormError> {
    if r.Ok? then {}
    else if first then set e | e in r.error :: FirstNameError(e)
    else set e | e in r.error :: LastNameError(e)
  }

  /** The name errors are those of the name's field, tagged by field. */
  lemma NameErrorsOf(r: Result<string, set<FieldError>>, first: bool)
    ensures forall x :: x in NameErrors(r, first) ==>
      (if first then x.FirstNameError? else x.LastNameError?) && r.Err? && x.e in r.error
    ensures r.Err? ==> forall e :: e in r.error ==>
      (if first then FirstNameError(e) else LastNameError(e)) in NameErrors(r, first)
  {
  }

  /** The name, email and role fields of `UserCreationAdminForm`
      (`exclude == None`) and `UserEditAdminForm` (`exclude` is the edited
      user's id). The form is valid when every field is; otherwise each
      field reports its own errors. */
  function CleanUserForm(first: string, last: string, email: string, role: string,
                         users: seq<User>, exclude: Option<nat>): (r: Result<UserFields, set<UserFormError>>)
    ensures r.Ok? <==>
      CleanName(first).Ok? && CleanName(last).Ok? && CleanEmail(email, users, exclude).Ok? && ParseRole(role).Some?
    ensures r.Ok? ==> r.value == UserFields(Strip(first), Strip(last), Strip(email), ParseRole(role).value)
  {
    var f := CleanName(first);
    var l := CleanName(last);
    var m := CleanEmail(email, users, exclude);
    var o := CleanRole(role);
    if f.Ok? && l.Ok? && m.Ok? && o.Ok? then Ok(UserFields(f.value, l.value, m.value, o.value))
    else Err(UserFormErrors(f, l, m, o))
  }

  function UserFormErrors(f: Result<string, set<FieldError>>, l: Result<string, set<FieldError>>,
                          m: Result<string, FieldError>, o: Result<Role, ChoiceError>): set<UserFormError> {
    NameErrors(f, true) + NameErrors(l, false)
      + (if m.Err? then {EmailError(m.error)} else {})
      + (if o.Err? then {RoleError(o.error)} else {})
  }

  /** An invalid user form reports each field's own errors and nothing
      else. */
  lemma UserFormErrorsReported(first: string, last: string, email: string, role: string,
                               users: seq<User>, exclude: Option<nat>)
    ensures var r := CleanUserForm(first, last, email, role, users, exclude);
      r.Err? ==>
      (forall e :: FirstNameError(e) in r.error <==> CleanName(first).Err? && e in CleanName(first).error) &&
      (forall e :: LastNameError(e) in r.error <==> CleanName(last).Err? && e in CleanName(last).error) &&
      (forall e :: EmailError(e) in r.error <==> CleanEmail(email, users, exclude) == Err(e)) &&
      (forall c :: RoleError(c) in r.error <==> CleanRole(role) == Err(c))
  {
    var f := CleanName(first);
    var l := CleanName(last);
    var m := CleanEmail(email, users, exclude);
    var o := CleanRole(role);
    var r := CleanUserForm(first, last, email, role, users, exclude);
    if r.Err? {
      var errs := UserFormErrors(f, l, m, o);
      assert r.error == errs;
      NameErrorsOf(f, true);
      NameErrorsOf(l, false);
      forall e ensures FirstNameError(e) in errs <==> f.Err? && e in f.error {
        assert FirstNameError(e) !in NameErrors(l, false);
      }
      forall e ensures LastNameError(e) in errs <==> l.Err? && e in l.error {
        assert LastNameError(e) !in NameErrors(f, true);
      }
      forall e ensures EmailError(e) in errs <==> m == Err(e) {
        assert EmailError(e) !in NameErrors(f, true) && EmailError(e) !in NameErrors(l, false);
      }
      forall c ensures RoleError(c) in errs <==> o == Err(c) {
        assert RoleError(c) !in NameErrors(f, true) && RoleError(c) !in NameErrors(l, false);
      }
    }
  }

  /** Unlike registration, the administrators' forms can create an
      administrator: with valid names and a free email, the role "admin" is
      accepted. */
  lemma AdminFormsOfferAdmin(first: string, last: string, email: string, users: seq<User>)
    requires CleanName(first).Ok? && CleanName(last).Ok? && CleanEmail(email, users, None).Ok?
    ensures CleanUserForm(first, last, email, "admin", users, None).Ok?
    ensures CleanUserForm(first, last, email, "admin", users, None).value.role == Admin
    ensures RegistrationRole("admin").None?
  {
  }

  /** Editing keeps a user's own email, while creating a user with it fails
      on the email field alone. */
  lemma EditAcceptsOwnEmail(users: seq<User>, k: nat, role: string)
    requires k < |users|
    requires forall i :: 0 <= i < |users| && users[i].email == users[k].email ==> users[i].id == users[k].id
    requires users[k].email != [] && IsStripped(users[k].email) && |users[k].email| <= EmailMaxLength
    requires CleanName(users[k].firstName).Ok? && CleanName(users[k].lastName).Ok? && ParseRole(role).Some?
    ensures CleanUserForm(users[k].firstName, users[k].lastName, users[k].email, role, users, Some(users[k].id)).Ok?
    ensures CleanUserForm(users[k].firstName, users[k].lastName, users[k].email, role, users, None)
      == Err({EmailError(EmailInUse)})
  {
    var u := users[k];
    OwnEmailAccepted(users, k);
    var r := CleanUserForm(u.firstName, u.lastName, u.email, role, users, None);
    UserFormErrorsReported(u.firstName, u.lastName, u.email, role, users, None);
    assert forall x :: x in r.error ==> x == EmailError(EmailInUse) by {
      forall x | x in r.error ensures x == EmailError(EmailInUse) {
        match x
        case FirstNameError(e) =>
        case LastNameError(e) =>
        case EmailError(e) =>
        case RoleError(c) =>
      }
    }
    assert EmailError(EmailInUse) in r.error;
    assert r.error == {EmailError(EmailInUse)};
  }

  // ---------------------------------------------------------------------
  // `PasswordResetAdminForm`

  datatype PasswordError = Password1Required | Password2Required | PasswordMismatch

  /** Both password fields are required and kept unstripped; when both are
      given and differ, `clean` adds a mismatch error on the second. A
      valid form yields the new password. */
  function CleanPasswordReset(p1: string, p2: string): (r: Result<string, set<PasswordError>>)
    ensures r.Ok? <==> p1 != [] && p1 == p2
    ensures r.Ok? ==> r.value == p1 && r.value == p2
    ensures r.Err? ==>
      (Password1Required in r.error <==> p1 == []) &&
      (Password2Required in r.error <==> p2 == []) &&
      (PasswordMismatch in r.error <==> p1 != [] && p2 != [] && p1 != p2)
  {
    var errs := (if p1 == [] then {Password1Required} else {})
      + (if p2 == [] then {Password2Required} else {})
      + (if p1 != [] && p2 != [] && p1 != p2 then {PasswordMismatch} else {});
    if errs == {} then Ok(p1) else Err(errs)
  }

  /** An empty field is reported as missing, never as a mismatch; and a
      password of spaces is accepted as typed, since neither field strips. */
  lemma PasswordResetRules(p: string)
    ensures CleanPasswordReset([], p).Err? && PasswordMismatch !in CleanPasswordReset([], p).error
    ensures CleanPasswordReset(p, []).Err? && PasswordMismatch !in CleanPasswordReset(p, []).error
    ensures CleanPasswordReset(" ", " ") == Ok(" ")
  {
  }

  // ---------------------------------------------------------------------
  // `NotificationSendForm`

  /** The four recipient choices. */
  datatype RecipientKind = AllUsers | AllStudents | AllTeachers | CourseStudents

  function RecipientTag(k: RecipientKind): string {
    match k
    case AllUsers => "all"
    case AllStudents => "students"
    case AllTeachers => "teachers"
    case CourseStudents => "course"
  }

  function ParseRecipient(s: string): (r: Option<RecipientKind>)
    ensures r.Some? <==> s in {"all", "students", "teachers", "course"}
    ensures r.Some? ==> RecipientTag(r.value) == s
  {
    if s == "all" then Some(AllUsers)
    else if s == "students" then Some(AllStudents)
    else if s == "teachers" then Some(AllTeachers)
    else if s == "course" then Some(CourseStudents)
    else None
  }

  datatype SendFormError = TitleRequired | TitleTooLong | MessageRequired | RecipientError(c: ChoiceError) | CourseRequired

  const TitleMaxLength: nat := 255

  /** A cleaned form: the stripped title and message, the type tag (empty
      when none was chosen), the recipients and the course id. */
  datatype SendRequest = SendRequest(title: string, message: string, ntype: string,
                                     recipient: RecipientKind, course: Option<int>)

  /** The recipient-choice field. */
  function CleanRecipient(raw: string): (r: Result<RecipientKind, ChoiceError>)
    ensures r.Ok? <==> ParseRecipient(raw).Some?
    ensures r.Ok? ==> r.value == ParseRecipient(raw).value
    ensures r == Err(ChoiceRequired) <==> raw == []
  {
    match ParseRecipient(raw)
    case Some(k) => Ok(k)
    case None => if raw == [] then Err(ChoiceRequired) else Err(InvalidChoice)
  }

  /** The field checks and `clean`: the title is required and at most 255
      characters, the message required, the recipient one of the four
      choices; when the recipient is a course, a missing or zero course id
      gets an error. A recipient that failed its own field check skips the
      course rule. */
  function CleanSendForm(title: string, message: string, ntype: string, recipient: string, course: Option<int>)
    : (r: Result<SendRequest, set<SendFormError>>)
    ensures r.Ok? <==>
      Strip(title) != [] && |Strip(title)| <= TitleMaxLength && Strip(message) != [] &&
      ParseRecipient(recipient).Some? &&
      !(ParseRecipient(recipient) == Some(CourseStudents) && (course.None? || course.value == 0))
    ensures r.Ok? ==>
      r.value == SendRequest(Strip(title), Strip(message), ntype, ParseRecipient(recipient).value, course)
    ensures r.Err? ==>
      (TitleRequired in r.error <==> Strip(title) == []) &&
      (TitleTooLong in r.error <==> |Strip(title)| > TitleMaxLength) &&
      (MessageRequired in r.error <==> Strip(message) == []) &&
      (forall c :: RecipientError(c) in r.error <==> CleanRecipient(recipient) == Err(c)) &&
      (CourseRequired in r.error <==>
         ParseRecipient(recipient) == Some(CourseStudents) && (course.None? || course.value == 0))
  {
    var t := Strip(title);
    var m := Strip(message);
    var k := CleanRecipient(recipient);
    var errs := (if t == [] then {TitleRequired} else {})
      + (if |t| > TitleMaxLength then {TitleTooLong} else {})
      + (if m == [] then {MessageRequired} else {})
      + (if k.Err? then {RecipientError(k.error)} else {})
      + (if k == Ok(CourseStudents) && (course.None? || course.value == 0) then {CourseRequired} else {});
    if errs == {} then Ok(SendRequest(t, m, ntype, k.value, course)) else Err(errs)
  }

  /** A course notification needs a course: without one, or with the
      placeholder 0, the form is invalid whatever else is filled in; with
      any other id and valid text it is accepted. */
  lemma CourseRecipientNeedsCourse(title: string, message: string, ntype: string, course: Option<int>)
    ensures course.None? || course == Some(0) ==> CleanSendForm(title, message, ntype, "course", course).Err?
    ensures (course.Some? && course.value != 0 && Strip(title) != [] && |Strip(title)| <= TitleMaxLength
      && Strip(message) != []) ==>
      CleanSendForm(title, message, ntype, "course", course).Ok? &&
      CleanSendForm(title, message, ntype, "course", course).value.course == course
  {
  }
}
