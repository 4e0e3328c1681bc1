/** The generic sign-in / registration form: field validation, the field
    update on typing, and the submission that writes a registration. */
module LoginForm {
  import opened Wrappers
  import opened Text
  import opened Records
  import opened Storage
  import StudentLogin

  const NameRequired := "Name is required"
  const EmailRequired := "Email is required"
  const EmailInvalid := "Email is invalid"
  const PasswordRequired := "Password is required"
  const PasswordTooShort := "Password must be at least 6 characters"
  const StudentIdRequired := "Student ID is required"
  const PasswordMismatch := "Passwords do not match"

  /** The form's fields, all present from the initial state on. */
  const Fields: set<string> := {"name", "email", "password", "studentId", "confirmPassword"}

  predicate HasFields(form: map<string, string>) {
    Fields <= form.Keys
  }

  /** Some substring of `s` matches `\S+@\S+\.\S+`: a non-space character, an
      `@`, a non-empty run of non-space characters, a `.` and a non-space
      character. */
  ghost predicate EmailShaped(s: string) {
    exists at, dot :: 1 <= at && at + 1 < dot && dot + 1 < |s| && s[at] == '@' && s[dot] == '.' &&
      !IsSpace(s[at - 1]) && !IsSpace(s[dot + 1]) && NoSpaceBetween(s, at, dot)
  }

  /** No white space strictly between positions `lo` and `hi`. */
  predicate NoSpaceBetween(s: string, lo: int, hi: int)
    requires 0 <= lo && hi <= |s|
  {
    forall m :: lo < m < hi ==> !IsSpace(s[m])
  }

  /** Given an `@` at `at` and no white space from there up to `k`, whether a
      `.` at or after `k` completes the pattern. */
  function DotFrom(s: string, at: nat, k: nat): (b: bool)
    requires at < k <= |s| && NoSpaceBetween(s, at, k)
    ensures b <==> exists dot :: k <= dot && at + 1 < dot && dot + 1 < |s| && s[dot] == '.' &&
                                 !IsSpace(s[dot + 1]) && NoSpaceBetween(s, at, dot)
    decreases |s| - k
  {
    if k == |s| then false
    else if IsSpace(s[k]) then
      assert forall dot :: k < dot <= |s| ==> !NoSpaceBetween(s, at, dot) by {
        forall dot | k < dot <= |s| ensures !NoSpaceBetween(s, at, dot) {
          assert at < k < dot && IsSpace(s[k]);
        }
      }
      false
    else if s[k] == '.' && at + 1 < k && k + 1 < |s| && !IsSpace(s[k + 1]) then true
    else DotFrom(s, at, k + 1)
  }

  /** Whether an `@` at or after `at` starts a match. */
  function AtFrom(s: string, at: nat): (b: bool)
    requires at <= |s|
    ensures b <==> exists a, dot :: at <= a && 1 <= a && a + 1 < dot && dot + 1 < |s| &&
                     s[a] == '@' && s[dot] == '.' && !IsSpace(s[a - 1]) && !IsSpace(s[dot + 1]) &&
                     NoSpaceBetween(s, a, dot)
    decreases |s| - at
  {
    if at == |s| then false
    else if 1 <= at && s[at] == '@' && !IsSpace(s[at - 1]) && at + 1 <= |s| && DotFrom(s, at, at + 1) then true
    else AtFrom(s, at + 1)
  }

  /** `/\S+@\S+\.\S+/.test(email)`. */
  function MatchesEmail(s: string): (b: bool)
    ensures b <==> EmailShaped(s)
  {
    AtFrom(s, 0)
  }

  /** The errors `validateForm` reports for a form. The name, student ID and
      confirmation are checked only when registering; an empty email takes
      precedence over a malformed one, an empty password over a short one. */
  function Errors(form: map<string, string>, isRegister: bool): map<string, string>
    requires HasFields(form)
  {
    var named: map<string, string> := if isRegister && IsBlank(form["name"]) then map["name" := NameRequired] else map[];
    RegisterChecks(form, isRegister, PasswordCheck(form, EmailCheck(form, named)))
  }

  /** Per field, `validateForm` reports an error exactly when that field's rule
      fails, with the rule's message. The name, student ID and confirmation are
      checked only when registering; an empty email takes precedence over a
      malformed one, an empty password over a short one. */
  lemma ErrorsRules(form: map<string, string>, isRegister: bool)
    requires HasFields(form)
    ensures var errors := Errors(form, isRegister);
      errors.Keys <= Fields &&
      ("name" in errors <==> isRegister && IsBlank(form["name"])) &&
      ("name" in errors ==> errors["name"] == NameRequired) &&
      ("email" in errors <==> IsBlank(form["email"]) || !EmailShaped(form["email"])) &&
      ("email" in errors ==> errors["email"] == if IsBlank(form["email"]) then EmailRequired else EmailInvalid) &&
      ("password" in errors <==> |form["password"]| < 6) &&
      ("password" in errors ==>
         errors["password"] == if form["password"] == "" then PasswordRequired else PasswordTooShort) &&
      ("studentId" in errors <==> isRegister && IsBlank(form["studentId"])) &&
      ("studentId" in errors ==> errors["studentId"] == StudentIdRequired) &&
      ("confirmPassword" in errors <==> isRegister && form["password"] != form["confirmPassword"]) &&
      ("confirmPassword" in errors ==> errors["confirmPassword"] == PasswordMismatch)
  {
    var named: map<string, string> := if isRegister && IsBlank(form["name"]) then map["name" := NameRequired] else map[];
    EmailCheckFacts(form, named);
    PasswordCheckFacts(form, EmailCheck(form, named));
    RegisterChecksFacts(form, isRegister, PasswordCheck(form, EmailCheck(form, named)));
  }

  /** The email rule added to `errors`. */
  function EmailCheck(form: map<string, string>, errors: map<string, string>): map<string, string>
    requires HasFields(form)
  {
    if IsBlank(form["email"]) then errors["email" := EmailRequired]
    else if !MatchesEmail(form["email"]) then errors["email" := EmailInvalid]
    else errors
  }

  /** The password rule added to `errors`. */
  function PasswordCheck(form: map<string, string>, errors: map<string, string>): map<string, string>
    requires HasFields(form)
  {
    if form["password"] == "" then errors["password" := PasswordRequired]
    else if |form["password"]| < 6 then errors["password" := PasswordTooShort]
    else errors
  }

  /** The registration-only student ID and confirmation rules added to `errors`. */
  function RegisterChecks(form: map<string, string>, isRegister: bool, errors: map<string, string>): map<string, string>
    requires HasFields(form)
  {
    var withId := if isRegister && IsBlank(form["studentId"]) then errors["studentId" := StudentIdRequired] else errors;
    if isRegister && form["password"] != form["confirmPassword"] then withId["confirmPassword" := PasswordMismatch]
    else withId
  }

  /** The email rule touches only the email entry, with the message for a blank
      or malformed address. */
  lemma EmailCheckFacts(form: map<string, string>, errors: map<string, string>)
    requires HasFields(form)
    ensures var r := EmailCheck(form, errors);
            (forall k :: k != "email" ==> (k in r <==> k in errors) && (k in errors ==> r[k] == errors[k])) &&
            ("email" in r <==> "email" in errors || IsBlank(form["email"]) || !EmailShaped(form["email"])) &&
            (IsBlank(form["email"]) ==> r["email"] == EmailRequired) &&
            (!IsBlank(form["email"]) && !EmailShaped(form["email"]) ==> r["email"] == EmailInvalid)
  {
  }

  /** The password rule touches only the password entry, with the message for
      an empty or short password. */
  lemma PasswordCheckFacts(form: map<string, string>, errors: map<string, string>)
    requires HasFields(form)
    ensures var r := PasswordCheck(form, errors);
            (forall k :: k != "password" ==> (k in r <==> k in errors) && (k in errors ==> r[k] == errors[k])) &&
            ("password" in r <==> "password" in errors || |form["password"]| < 6) &&
            (|form["password"]| < 6 ==>
               r["password"] == if form["password"] == "" then PasswordRequired else PasswordTooShort)
  {
  }

  /** The registration rules touch only the student ID and confirmation
      entries, and only when registering. */
  lemma RegisterChecksFacts(form: map<string, string>, isRegister: bool, errors: map<string, string>)
    requires HasFields(form)
    ensures var r := RegisterChecks(form, isRegister, errors);
            (forall k :: k != "studentId" && k != "confirmPassword" ==>
               (k in r <==> k in errors) && (k in errors ==> r[k] == errors[k])) &&
            ("studentId" in r <==> "studentId" in errors || (isRegister && IsBlank(form["studentId"]))) &&
            (isRegister && IsBlank(form["studentId"]) ==> r["studentId"] == StudentIdRequired) &&
            ("confirmPassword" in r <==>
               "confirmPassword" in errors || (isRegister && form["password"] != form["confirmPassword"])) &&
            (isRegister && form["password"] != form["confirmPassword"] ==> r["confirmPassword"] == PasswordMismatch)
  {
  }

  /** `validateForm`: fills the error map field by field and reports whether it
      stayed empty. */
  method ValidateForm(form: map<string, string>, isRegister: bool)
    returns (errors: map<string, string>, valid: bool)
    requires HasFields(form)
    ensures errors == Errors(form, isRegister)
    ensures valid <==> errors == map[]
  {
    errors := map[];
    if isRegister && IsBlank(form["name"]) {
      errors := errors["name" := NameRequired];
    }
    ghost var checked := errors;
    if IsBlank(form["email"]) {
      errors := errors["email" := EmailRequired];
    } else if !MatchesEmail(form["email"]) {
      errors := errors["email" := EmailInvalid];
    }
    assert errors == EmailCheck(form, checked);
    checked := errors;
    if form["password"] == "" {
      errors := errors["password" := PasswordRequired];
    } else if |form["password"]| < 6 {
      errors := errors["password" := PasswordTooShort];
    }
    assert errors == PasswordCheck(form, checked);
    checked := errors;
    if isRegister {
      if IsBlank(form["studentId"]) {
        errors := errors["studentId" := StudentIdRequired];
      }
      if form["password"] != form["confirmPassword"] {
        errors := errors["confirmPassword" := PasswordMismatch];
      }
    }
    assert errors == RegisterChecks(form, isRegister, checked);
    valid := errors == map[];  // `Object.keys(newErrors).length === 0`
  }

  /** `handleChange`: the named field takes the typed value, and that field's
      error, if one is showing, is blanked; nothing else changes. */
  function HandleChange(form: map<string, string>, errors: map<string, string>,
                        name: string, value: string): (r: (map<string, string>, map<string, string>))
    ensures name in r.0 && r.0[name] == value
    ensures forall k :: k != name ==> (k in r.0 <==> k in form) && (k in form ==> r.0[k] == form[k])
    ensures r.1.Keys == errors.Keys
    ensures name in errors ==> r.1[name] == ""
    ensures forall k :: k in errors && k != name ==> r.1[k] == errors[k]
  {
    (form[name := value], if name in errors && errors[name] != "" then errors[name := ""] else errors)
  }

  /** Typing keeps every field of the form present. */
  lemma HandleChangeKeepsFields(form: map<string, string>, errors: map<string, string>,
                                name: string, value: string)
    requires HasFields(form)
    ensures HasFields(HandleChange(form, errors, name, value).0)
  {
  }

  datatype Outcome =
    | Invalid(errors: map<string, string>)
    | SignedIn(login: LoginCall)

  /** The user object built on a valid submission: a blank name becomes
      `Student User` and a blank student ID a generated `STU…` identifier. */
  function UserData(form: map<string, string>, randomId: string, loginTime: string): (u: User)
    requires HasFields(form)
    ensures u.Profile? && u.email == form["email"] && u.loginTime == loginTime
    ensures u.name != "" && u.studentId != ""
    ensures form["name"] != "" ==> u.name == form["name"]
    ensures form["name"] == "" ==> u.name == "Student User"
    ensures form["studentId"] != "" ==> u.studentId == form["studentId"]
    ensures form["studentId"] == "" ==> "STU" <= u.studentId
  {
    Profile(if form["name"] == "" then "Student User" else form["name"],
            form["email"],
            if form["studentId"] == "" then "STU" + randomId else form["studentId"],
            loginTime)
  }

  /** `handleSubmit`: nothing happens on invalid input; otherwise a registration
      writes the email's entry (overwriting any existing one: there is no
      duplicate check) and the user is signed in, as admin only for the admin
      form. `loginTime`, `joinDate` and `randomId` stand for the clock and the
      random suffix. */
  method Submit(store: Store, form: map<string, string>, userType: string,
                loginTime: string, joinDate: string, randomId: string)
    returns (outcome: Outcome)
    requires HasFields(form)
    modifies store`students
    ensures outcome.Invalid? <==> Errors(form, userType == "register") != map[]
    ensures outcome.Invalid? ==>
              outcome.errors == Errors(form, userType == "register") && store.students == old(store.students)
    ensures outcome.SignedIn? ==>
              outcome.login == LoginCall(UserData(form, randomId, loginTime), userType == "admin")
    ensures outcome.SignedIn? && userType == "register" ==>
              var u := UserData(form, randomId, loginTime);
              store.students == old(store.students)[form["email"] :=
                FormUser(u.name, u.email, u.studentId, u.loginTime, 0, 0, joinDate)]
    ensures outcome.SignedIn? && userType != "register" ==> store.students == old(store.students)
  {
    var errors, valid := ValidateForm(form, userType == "register");
    if !valid {
      return Invalid(errors);
    }
    var userData := UserData(form, randomId, loginTime);
    if userType == "register" {
      var users := store.students;
      users := users[form["email"] := FormUser(userData.name, userData.email, userData.studentId,
                                               userData.loginTime, 0, 0, joinDate)];
      store.students := users;
    }
    outcome := SignedIn(LoginCall(userData, userType == "admin"));
  }

  /** A registration through this form replaces any entry under the email by
      one without a password, so the student sign-in form no longer accepts
      that email with any password. */
  lemma RegistrationDropsPassword(users: map<string, Student>, email: string, u: User,
                                  joinDate: string, password: string)
    requires u.Profile?
    ensures !StudentLogin.PasswordMatches(
              users[email := FormUser(u.name, u.email, u.studentId, u.loginTime, 0, 0, joinDate)],
              email, password)
  {
  }
}
