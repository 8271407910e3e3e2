/**
 * Users, their role tag, and the field validators of the registration and
 * profile forms.
 */
module Accounts {
  import opened Wrappers
  import opened Text

  /** The three values of `User.role`. */
  datatype Role = Admin | Teacher | Student

  /** A new account is a student unless a role is chosen. */
  const DefaultRole: Role := Student

  datatype User = User(
    id: nat,
    username: string,
    email: string,
    firstName: string,
    lastName: string,
    role: Role)

  /** The user with this id (`get_object_or_404(User, id=...)`). */
  function FindUser(users: seq<User>, id: nat): (r: Option<User>)
    ensures r.Some? ==> r.value in users && r.value.id == id
    ensures r.None? <==> forall i :: 0 <= i < |users| ==> users[i].id != id
  {
    Find(users, (u: User) => u.id == id)
  }

  predicate IsAdmin(u: User) { u.role == Admin }
  predicate IsTeacher(u: User) { u.role == Teacher }
  predicate IsStudent(u: User) { u.role == Student }

  /** Whatever the role, exactly one of the three role predicates holds. */
  lemma ExactlyOneRole(u: User)
    ensures IsAdmin(u) <==> !IsTeacher(u) && !IsStudent(u)
    ensures IsTeacher(u) <==> !IsAdmin(u) && !IsStudent(u)
    ensures IsStudent(u) <==> !IsAdmin(u) && !IsTeacher(u)
  {
  }

  /** The stored tag of a role. */
  function RoleTag(r: Role): string {
    match r
    case Admin => "admin"
    case Teacher => "teacher"
    case Student => "student"
  }

  /** A choice field over every role (`User.ROLE_CHOICES`): the submitted
      value must equal one of the tags exactly. */
  function ParseRole(s: string): (r: Option<Role>)
    ensures r.Some? <==> s in {"admin", "teacher", "student"}
    ensures r.Some? ==> RoleTag(r.value) == s
  {
    if s == "admin" then Some(Admin)
    else if s == "teacher" then Some(Teacher)
    else if s == "student" then Some(Student)
    else None
  }

  /** The registration form's role field offers only student and teacher. */
  function RegistrationRole(s: string): (r: Option<Role>)
    ensures r.Some? <==> s in {"student", "teacher"}
    ensures r.Some? ==> r.value != Admin && r == ParseRole(s)
  {
    if s == "student" then Some(Student)
    else if s == "teacher" then Some(Teacher)
    else None
  }

  /** Self-registration never yields an administrator. */
  lemma NoSelfRegisteredAdmin(s: string)
    ensures RegistrationRole(s) != Some(Admin)
    ensures ParseRole("admin") == Some(Admin)
  {
  }

  /** What can be wrong with a submitted form field. */
  datatype FieldError = Required | TooLong(limit: nat) | InvalidCharacters | EmailInUse

  /** The pattern `^[a-zA-Z\s]*$` on an already stripped value. */
  predicate LettersAndSpaces(s: string) {
    forall i :: 0 <= i < |s| ==> IsAsciiLetter(s[i]) || IsSpace(s[i])
  }

  const NameMaxLength: nat := 30

  /** The first- and last-name fields: the input is stripped, an empty value
      is required-missing, and otherwise every failing validator (the
      30-character limit and the letters-and-whitespace pattern) reports. */
  function CleanName(raw: string): (r: Result<string, set<FieldError>>)
    ensures r.Ok? <==> Strip(raw) != [] && |Strip(raw)| <= NameMaxLength && LettersAndSpaces(Strip(raw))
    ensures r.Ok? ==> r.value == Strip(raw)
    ensures r.Err? ==> r.error != {}
    ensures r.Err? && Strip(raw) == [] ==> r.error == {Required}
    ensures r.Err? && Strip(raw) != [] ==>
      (TooLong(NameMaxLength) in r.error <==> |Strip(raw)| > NameMaxLength) &&
      (InvalidCharacters in r.error <==> !LettersAndSpaces(Strip(raw)))
  {
    var v := Strip(raw);
    if v == [] then Err({Required})
    else
      var errs := (if |v| > NameMaxLength then {TooLong(NameMaxLength)} else {})
        + (if LettersAndSpaces(v) then {} else {InvalidCharacters});
      if errs == {} then Ok(v) else Err(errs)
  }

  /** A name that passes the validator is stored exactly as cleaned: cleaning
      it again gives it back. */
  lemma CleanNameIdempotent(raw: string)
    requires CleanName(raw).Ok?
    ensures CleanName(CleanName(raw).value) == CleanName(raw)
  {
    StripIdempotent(raw);
  }

  const EmailMaxLength: nat := 254

  /** Some user other than `exclude` already has this email. */
  predicate EmailTaken(users: seq<User>, email: string, exclude: Option<nat>) {
    exists i :: 0 <= i < |users| && users[i].email == email && Some(users[i].id) != exclude
  }

  /** The email field and its `clean_email`: the input is stripped, required
      and at most 254 characters, and then refused when some user other than
      the one being edited (`exclude`; `None` on registration) has it. */
  function CleanEmail(raw: string, users: seq<User>, exclude: Option<nat>): (r: Result<string, FieldError>)
    ensures r.Ok? <==> Strip(raw) != [] && |Strip(raw)| <= EmailMaxLength && !EmailTaken(users, Strip(raw), exclude)
    ensures r.Ok? ==> r.value == Strip(raw)
    ensures r == Err(EmailInUse) <==>
      Strip(raw) != [] && |Strip(raw)| <= EmailMaxLength && EmailTaken(users, Strip(raw), exclude)
  {
    var v := Strip(raw);
    if v == [] then Err(Required)
    else if |v| > EmailMaxLength then Err(TooLong(EmailMaxLength))
    else if exists i :: 0 <= i < |users| && users[i].email == v && Some(users[i].id) != exclude then Err(EmailInUse)
    else Ok(v)
  }

  /** Registration refuses an email used by anyone; editing a profile accepts
      the user's own email and refuses one held by another user. */
  lemma OwnEmailAccepted(users: seq<User>, k: nat)
    requires k < |users|
    requires forall i :: 0 <= i < |users| && users[i].email == users[k].email ==> users[i].id == users[k].id
    requires users[k].email != [] && IsStripped(users[k].email) && |users[k].email| <= EmailMaxLength
    ensures CleanEmail(users[k].email, users, Some(users[k].id)).Ok?
    ensures CleanEmail(users[k].email, users, None) == Err(EmailInUse)
  {
    StripOfStripped(users[k].email);
  }
}
