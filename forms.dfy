/**
 * The input forms (forms.py).  A form field is checked by running its
 * declared validator list in order, as WTForms does: `DataRequired` and
 * `Optional` end the chain early (and discard earlier messages), every other
 * validator adds its message and lets the chain go on.  A form is accepted
 * when no field has a message left.
 */
module Forms {
  import opened Tables
  import opened Models

  /** The data of one submitted field: text, a parsed integer (None when the
      input did not parse) or a parsed date (likewise). */
  datatype Field = Text(text: string) | Number(number: Option<int>) | Day(day: Option<Date>)

  predicate IsSpace(c: char)
  {
    c == ' ' || c == '\t' || c == '\n' || c == '\r' || c == '\U{0B}' || c == '\U{0C}'
  }

  /** `s.strip()` is non-empty. */
  predicate Present(s: string)
  {
    exists i :: 0 <= i < |s| && !IsSpace(s[i])
  }

  /** The field's data is truthy and, for text, not blank (what `DataRequired` asks). */
  predicate Truthy(f: Field)
  {
    match f
    case Text(s) => Present(s)
    case Number(n) => n.Some? && n.value != 0
    case Day(d) => d.Some?
  }

  datatype Validator =
    | DataRequired(message: string)
    | Optional
    | Length(min: int, max: int, message: string)      // max == -1: no upper bound
    | NumberRange(min: int, max: int, message: string)
    | EqualTo(other: Field, message: string)
    | NotAfter(today: Date, message: string)           // the inline validate_dob
    | MissingWhen(condition: bool, message: string)    // the inline validate_current_password

  /** Whether a validator that does not stop the chain accepts the field. */
  predicate Passes(v: Validator, f: Field)
  {
    match v
    case DataRequired(_) => Truthy(f)
    case Optional => true
    case Length(lo, hi, _) =>
      var n := if f.Text? then |f.text| else 0;
      !(n < lo || (hi != -1 && n > hi))
    case NumberRange(lo, hi, _) =>
      f.Number? && f.number.Some? && lo <= f.number.value <= hi
    case EqualTo(other, _) => f == other
    case NotAfter(today, _) => !(f.Day? && f.day.Some? && DateAfter(f.day.value, today))
    case MissingWhen(c, _) => !(c && f.Text? && f.text == "")
  }

  /** The messages left on a field after running `vs` on it, starting from `errors`. */
  function RunChain(errors: seq<string>, f: Field, vs: seq<Validator>): seq<string>
    decreases |vs|
  {
    if vs == [] then errors
    else match vs[0]
      case DataRequired(m) =>
        if Truthy(f) then RunChain(errors, f, vs[1..]) else [m]
      case Optional =>
        if f.Text? && !Present(f.text) then [] else RunChain(errors, f, vs[1..])
      case _ =>
        if Passes(vs[0], f) then RunChain(errors, f, vs[1..])
        else RunChain(errors + [vs[0].message], f, vs[1..])
  }

  /** A field whose input did not parse starts with the parser's message. */
  function ProcessErrors(f: Field): seq<string>
  {
    match f
    case Number(None) => ["Not a valid integer value."]
    case Day(None) => ["Not a valid date value."]
    case _ => []
  }

  function FieldErrors(f: Field, vs: seq<Validator>): seq<string>
  {
    RunChain(ProcessErrors(f), f, vs)
  }

  /** A required field followed by one ordinary validator is clean exactly
      when its data is truthy and the validator accepts it. */
  lemma RequiredThen(f: Field, m: string, v: Validator)
    requires !v.DataRequired? && !v.Optional?
    ensures FieldErrors(f, [DataRequired(m), v]) == [] <==> Truthy(f) && Passes(v, f)
  {
    var vs := [DataRequired(m), v];
    assert vs[1..] == [v] && [v][1..] == [];
    if Truthy(f) {
      assert ProcessErrors(f) == [];
      assert RunChain([], f, vs) == RunChain([], f, [v]);
      if Passes(v, f) {
        assert RunChain([], f, [v]) == RunChain([], f, []);
      } else {
        assert RunChain([], f, [v]) == RunChain([v.message], f, []);
      }
    }
  }

  /** An optional text field followed by one ordinary validator is clean
      exactly when it is blank or the validator accepts it. */
  lemma OptionalThen(s: string, v: Validator)
    requires !v.DataRequired? && !v.Optional?
    ensures FieldErrors(Text(s), [Optional, v]) == [] <==> !Present(s) || Passes(v, Text(s))
  {
    var vs := [Optional, v];
    assert vs[1..] == [v] && [v][1..] == [];
    if Present(s) {
      assert RunChain([], Text(s), vs) == RunChain([], Text(s), [v]);
      if Passes(v, Text(s)) {
        assert RunChain([], Text(s), [v]) == RunChain([], Text(s), []);
      } else {
        assert RunChain([], Text(s), [v]) == RunChain([v.message], Text(s), []);
      }
    }
  }

  /** Every field of the form is left without a message. */
  predicate NoErrors(es: seq<seq<string>>)
  {
    forall i :: 0 <= i < |es| ==> es[i] == []
  }

  // ---------------------------------------------------------------- QuizForm

  datatype QuizForm = QuizForm(timeDuration: Option<int>, remarks: string)

  function QuizFormErrors(f: QuizForm): seq<seq<string>>
  {
    [ FieldErrors(Number(f.timeDuration),
        [ DataRequired("Time duration is required."),
          NumberRange(1, 180, "Duration must be between 1 and 180 minutes.") ]),
      FieldErrors(Text(f.remarks),
        [ DataRequired("Quiz title is required."),
          Length(3, 200, "Quiz title must be between 3 and 200 characters.") ]) ]
  }

  predicate QuizFormAccepted(f: QuizForm)
  {
    NoErrors(QuizFormErrors(f))
  }

  /** A quiz form is accepted exactly when the duration is an integer from 1
      to 180 and the title is non-blank with 3 to 200 characters. */
  lemma QuizFormAcceptance(f: QuizForm)
    ensures QuizFormAccepted(f) <==>
      && f.timeDuration.Some? && 1 <= f.timeDuration.value <= 180
      && Present(f.remarks) && 3 <= |f.remarks| <= 200
  {
    var e := QuizFormErrors(f);
    assert QuizFormAccepted(f) <==> e[0] == [] && e[1] == [];
  }

  // ------------------------------------------------------------ QuestionForm

  const Slots: seq<string> := ["option1", "option2", "option3", "option4"]

  datatype QuestionForm = QuestionForm(
    statement: string,
    option1: string,
    option2: string,
    option3: string,
    option4: string,
    correctOption: string)   // the key of the chosen slot

  function OptionValidators(n: string): seq<Validator>
  {
    [ DataRequired("Option " + n + " is required."),
      Length(1, 150, "Option must be between 1 and 150 characters.") ]
  }

  function QuestionFormErrors(f: QuestionForm): seq<seq<string>>
  {
    [ FieldErrors(Text(f.statement),
        [ DataRequired("Question statement is required."),
          Length(10, -1, "Question must be at least 10 characters long.") ]),
      FieldErrors(Text(f.option1), OptionValidators("1")),
      FieldErrors(Text(f.option2), OptionValidators("2")),
      FieldErrors(Text(f.option3), OptionValidators("3")),
      FieldErrors(Text(f.option4), OptionValidators("4")),
      // SelectField checks the choice before its validator chain runs
      RunChain(if f.correctOption in Slots then [] else ["Not a valid choice."],
               Text(f.correctOption),
               [ DataRequired("Please select the correct option.") ]) ]
  }

  predicate QuestionFormAccepted(f: QuestionForm)
  {
    NoErrors(QuestionFormErrors(f))
  }

  predicate OptionOk(s: string)
  {
    Present(s) && 1 <= |s| <= 150
  }

  /** A question form is accepted exactly when the statement is non-blank with
      at least 10 characters, each option is non-blank with 1 to 150
      characters, and the correct option is one of the four slot keys. */
  lemma QuestionFormAcceptance(f: QuestionForm)
    ensures QuestionFormAccepted(f) <==>
      && Present(f.statement) && |f.statement| >= 10
      && OptionOk(f.option1) && OptionOk(f.option2)
      && OptionOk(f.option3) && OptionOk(f.option4)
      && f.correctOption in Slots
  {
    var e := QuestionFormErrors(f);
    assert QuestionFormAccepted(f) <==>
      e[0] == [] && e[1] == [] && e[2] == [] && e[3] == [] && e[4] == [] && e[5] == [];
    if f.correctOption in Slots {
      assert Present(f.correctOption) by {
        assert !IsSpace(f.correctOption[0]);
      }
    }
  }

  // ---------------------------------------------------- UserRegistrationForm

  datatype RegistrationForm = RegistrationForm(
    username: string,
    password: string,
    confirmPassword: string,
    fullName: string,
    qualification: string,
    dob: Option<Date>)

  function RegistrationErrors(f: RegistrationForm, today: Date): seq<seq<string>>
  {
    [ FieldErrors(Text(f.username),
        [ DataRequired("Email is required."),
          Length(-1, 150, "Email must be less than 150 characters.") ]),
      FieldErrors(Text(f.password),
        [ DataRequired("Password is required."),
          Length(8, -1, "Password must be at least 8 characters long.") ]),
      FieldErrors(Text(f.confirmPassword),
        [ DataRequired("Please confirm your password."),
          EqualTo(Text(f.password), "Passwords must match.") ]),
      FieldErrors(Text(f.fullName),
        [ DataRequired("Full name is required."),
          Length(2, 150, "Full name must be between 2 and 150 characters.") ]),
      FieldErrors(Text(f.qualification),
        [ DataRequired("Qualification is required."),
          Length(-1, 150, "Qualification must be less than 150 characters.") ]),
      FieldErrors(Day(f.dob),
        [ DataRequired("Date of birth is required."),
          NotAfter(today, "Date of birth cannot be in the future.") ]) ]
  }

  predicate RegistrationAccepted(f: RegistrationForm, today: Date)
  {
    NoErrors(RegistrationErrors(f, today))
  }

  /** An accepted registration has a password of at least 8 characters, a
      confirmation equal to it, and a date of birth that is not after today. */
  lemma RegistrationAcceptance(f: RegistrationForm, today: Date)
    ensures RegistrationAccepted(f, today) <==>
      && Present(f.username) && |f.username| <= 150
      && Present(f.password) && |f.password| >= 8
      && Present(f.confirmPassword) && f.confirmPassword == f.password
      && Present(f.fullName) && 2 <= |f.fullName| <= 150
      && Present(f.qualification) && |f.qualification| <= 150
      && f.dob.Some? && !DateAfter(f.dob.value, today)
  {
    var e := RegistrationErrors(f, today);
    assert RegistrationAccepted(f, today) <==>
      e[0] == [] && e[1] == [] && e[2] == [] && e[3] == [] && e[4] == [] && e[5] == [];
    RequiredThen(Text(f.username), "Email is required.",
      Length(-1, 150, "Email must be less than 150 characters."));
    RequiredThen(Text(f.password), "Password is required.",
      Length(8, -1, "Password must be at least 8 characters long."));
    RequiredThen(Text(f.confirmPassword), "Please confirm your password.",
      EqualTo(Text(f.password), "Passwords must match."));
    RequiredThen(Text(f.fullName), "Full name is required.",
      Length(2, 150, "Full name must be between 2 and 150 characters."));
    RequiredThen(Text(f.qualification), "Qualification is required.",
      Length(-1, 150, "Qualification must be less than 150 characters."));
    RequiredThen(Day(f.dob), "Date of birth is required.",
      NotAfter(today, "Date of birth cannot be in the future."));
  }

  // --------------------------------------------------------- UserProfileForm

  datatype ProfileForm = ProfileForm(
    fullName: string,
    qualification: string,
    dob: Option<Date>,
    currentPassword: string,
    newPassword: string,
    confirmNewPassword: string)

  function ProfileErrors(f: ProfileForm, today: Date): seq<seq<string>>
  {
    [ FieldErrors(Text(f.fullName),
        [ DataRequired("This field is required."),
          Length(2, 150, "Field must be between 2 and 150 characters long.") ]),
      FieldErrors(Text(f.qualification),
        [ DataRequired("This field is required."),
          Length(2, 150, "Field must be between 2 and 150 characters long.") ]),
      FieldErrors(Day(f.dob),
        [ DataRequired("This field is required."),
          NotAfter(today, "Date of birth cannot be in the future.") ]),
      FieldErrors(Text(f.currentPassword),
        [ DataRequired("This field is required."),
          MissingWhen(f.newPassword != "", "Current password is required to change password.") ]),
      FieldErrors(Text(f.newPassword),
        [ Optional,
          Length(6, -1, "Field must be at least 6 characters long.") ]),
      FieldErrors(Text(f.confirmNewPassword),
        [ Optional,
          EqualTo(Text(f.newPassword), "Passwords must match.") ]) ]
  }

  predicate ProfileAccepted(f: ProfileForm, today: Date)
  {
    NoErrors(ProfileErrors(f, today))
  }

  /** What an accepted profile form guarantees: a current password is always
      supplied, a date of birth that is not in the future, and a non-blank new
      password of at least 6 characters.  A non-blank confirmation must equal
      the new password, but a blank one is not checked at all. */
  lemma ProfileAcceptance(f: ProfileForm, today: Date)
    ensures ProfileAccepted(f, today) <==>
      && Present(f.fullName) && 2 <= |f.fullName| <= 150
      && Present(f.qualification) && 2 <= |f.qualification| <= 150
      && f.dob.Some? && !DateAfter(f.dob.value, today)
      && Present(f.currentPassword)
      && (Present(f.newPassword) ==> |f.newPassword| >= 6)
      && (Present(f.confirmNewPassword) ==> f.confirmNewPassword == f.newPassword)
  {
    var e := ProfileErrors(f, today);
    assert ProfileAccepted(f, today) <==>
      e[0] == [] && e[1] == [] && e[2] == [] && e[3] == [] && e[4] == [] && e[5] == [];
    RequiredThen(Text(f.fullName), "This field is required.",
      Length(2, 150, "Field must be between 2 and 150 characters long."));
    RequiredThen(Text(f.qualification), "This field is required.",
      Length(2, 150, "Field must be between 2 and 150 characters long."));
    RequiredThen(Day(f.dob), "This field is required.",
      NotAfter(today, "Date of birth cannot be in the future."));
    RequiredThen(Text(f.currentPassword), "This field is required.",
      MissingWhen(f.newPassword != "", "Current password is required to change password."));
    OptionalThen(f.newPassword, Length(6, -1, "Field must be at least 6 characters long."));
    OptionalThen(f.confirmNewPassword, EqualTo(Text(f.newPassword), "Passwords must match."));
    if Present(f.currentPassword) {
      assert f.currentPassword != "";
    }
  }

  /** A new password with no current password is refused. */
  lemma NewPasswordNeedsCurrent(f: ProfileForm, today: Date)
    requires f.newPassword != "" && f.currentPassword == ""
    ensures !ProfileAccepted(f, today)
  {
    ProfileAcceptance(f, today);
    assert !Present(f.currentPassword);
  }

  /** A date of birth after today is refused by both forms that ask for one. */
  lemma FutureBirthDateRefused(r: RegistrationForm, p: ProfileForm, today: Date)
    requires r.dob.Some? && DateAfter(r.dob.value, today)
    requires p.dob.Some? && DateAfter(p.dob.value, today)
    ensures !RegistrationAccepted(r, today) && !ProfileAccepted(p, today)
  {
    RegistrationAcceptance(r, today);
    ProfileAcceptance(p, today);
  }

  /** The confirmation field is `Optional`: a new password sent with an empty
      confirmation passes, although the two differ. */
  lemma EmptyConfirmationAccepted()
    ensures var f := ProfileForm("Ann Lee", "BSc", Some(Date(2000, 1, 1)), "old-secret", "new-secret", "");
            ProfileAccepted(f, Date(2024, 1, 1)) && f.confirmNewPassword != f.newPassword
  {
    var f := ProfileForm("Ann Lee", "BSc", Some(Date(2000, 1, 1)), "old-secret", "new-secret", "");
    assert !IsSpace(f.fullName[0]) && !IsSpace(f.qualification[0]);
    assert !IsSpace(f.currentPassword[0]) && !IsSpace(f.newPassword[0]);
    ProfileAcceptance(f, Date(2024, 1, 1));
  }
}
