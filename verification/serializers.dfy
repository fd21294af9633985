/**
 * The validation and creation logic of home/serializers.py: phone and OTP
 * checks, sign-up with password confirmation, the question-scoped response
 * validator, and the public projection of a choice.
 */
module Serializers {
  import opened Common
  import opened Store
  import opened Models
  import Views

  // ---------------------------------------------------------------------
  // OTPSerializer and VerifyOTPSerializer
  // ---------------------------------------------------------------------

  datatype OtpError =
    | AlreadyRegistered   // the phone number already belongs to a user
    | WrongCode           // no code was issued to the phone, or it differs
    | CodeExpired         // the code is older than its lifetime

  /** `OTPSerializer.validate_phone_number`. */
  function ValidatePhoneNumber(db: Db, phone: string): (r: Result<string, OtpError>)
    ensures r.Err? <==> exists u :: u in db.users && db.users[u].phone == phone
    ensures r.Err? ==> r.error == AlreadyRegistered
    ensures r.Ok? ==> r.value == phone
  {
    if PhoneRegistered(db, phone) then Err(AlreadyRegistered) else Ok(phone)
  }

  /** A code stays valid for five minutes after it is issued. */
  const OtpLifetime: int := 5 * 60

  /** The cleaned fields of a code verification: trimmed, non-blank and within their lengths. */
  datatype OtpSubmission = OtpSubmission(phone: string, otp: string)

  /** `VerifyOTPSerializer.validate` at time `now`. */
  function VerifyOtp(db: Db, now: Timestamp, data: OtpSubmission): (r: Result<OtpSubmission, OtpError>)
    ensures r == Err(WrongCode) <==> data.phone !in db.otps || db.otps[data.phone].otp != data.otp
    ensures r == Err(CodeExpired) <==>
      data.phone in db.otps && db.otps[data.phone].otp == data.otp &&
      now > db.otps[data.phone].createdAt + OtpLifetime
    ensures r.Ok? ==> r.value == data
    ensures r.Err? ==> r.error != AlreadyRegistered
  {
    if data.phone !in db.otps || db.otps[data.phone].otp != data.otp then
      Err(WrongCode)
    else if now > db.otps[data.phone].createdAt + OtpLifetime then
      Err(CodeExpired)
    else
      Ok(data)
  }

  /**
   * A freshly issued code verifies up to and including five minutes after
   * it was issued, and is refused as expired from then on.
   */
  lemma IssuedOtpVerifiesWithinWindow(db: Db, phone: string, issued: Timestamp, draw: nat, now: Timestamp)
    requires OtpLow <= draw <= OtpHigh
    ensures var db' := GenerateOtp(db, phone, issued, draw);
      var data := OtpSubmission(phone, db'.otps[phone].otp);
      && (now <= issued + OtpLifetime ==> VerifyOtp(db', now, data) == Ok(data))
      && (now > issued + OtpLifetime ==> VerifyOtp(db', now, data) == Err(CodeExpired))
  {
  }

  /** Any other code is refused for that phone. */
  lemma IssuedOtpRejectsOtherCodes(db: Db, phone: string, issued: Timestamp, draw: nat, now: Timestamp, guess: string)
    requires OtpLow <= draw <= OtpHigh
    requires guess != GenerateOtp(db, phone, issued, draw).otps[phone].otp
    ensures VerifyOtp(GenerateOtp(db, phone, issued, draw), now, OtpSubmission(phone, guess)) == Err(WrongCode)
  {
  }

  // ---------------------------------------------------------------------
  // UserSerializer
  // ---------------------------------------------------------------------

  /** The sign-up payload. */
  datatype SignUpData = SignUpData(
    phone: string,
    firstName: string,
    lastName: string,
    province: string,
    gender: string,
    password: string,
    confirmPassword: string)

  /** The fields of the sign-up form, each validated on its own before `validate` runs. */
  datatype SignUpField =
    | PhoneField
    | FirstNameField
    | LastNameField
    | ProvinceField
    | GenderField
    | PasswordField
    | ConfirmField

  const AllSignUpFields: set<SignUpField> :=
    {PhoneField, FirstNameField, LastNameField, ProvinceField, GenderField, PasswordField, ConfirmField}

  /**
   * Field validation reports every invalid field at once; the password
   * comparison runs only when every field is valid.
   */
  datatype SignUpError = InvalidFields(fields: set<SignUpField>) | PasswordMismatch

  /** A required text column: not blank and within its `max_length`. */
  predicate TextOk(value: string, maxLength: nat) {
    value != "" && |value| <= maxLength
  }

  /**
   * The checks the model serializer derives for one field from the `User`
   * columns and the declared password fields: the phone column is unique and
   * at most 15 characters, the names at most 30, the province at most 50,
   * the gender one of the two choices, and no field may be blank.
   */
  predicate FieldOk(db: Db, data: SignUpData, field: SignUpField) {
    match field
    case PhoneField => TextOk(data.phone, 15) && !PhoneRegistered(db, data.phone)
    case FirstNameField => TextOk(data.firstName, 30)
    case LastNameField => TextOk(data.lastName, 30)
    case ProvinceField => TextOk(data.province, 50)
    case GenderField => data.gender == "M" || data.gender == "F"
    case PasswordField => data.password != ""
    case ConfirmField => data.confirmPassword != ""
  }

  predicate FieldsValid(db: Db, data: SignUpData) {
    forall field :: FieldOk(db, data, field)
  }

  lemma AllSignUpFieldsListed(field: SignUpField)
    ensures field in AllSignUpFields
  {
  }

  /** The field-level validation of `UserSerializer`, run before `validate`. */
  function ValidateFields(db: Db, data: SignUpData): (r: Result<SignUpData, SignUpError>)
    ensures r.Ok? <==> FieldsValid(db, data)
    ensures r.Ok? ==> r.value == data
    ensures r.Err? ==> r.error.InvalidFields? && r.error.fields != {}
    ensures r.Err? ==> forall field :: field in r.error.fields <==> !FieldOk(db, data, field)
  {
    var invalid := set field | field in AllSignUpFields && !FieldOk(db, data, field);
    if invalid == {} then
      assert FieldsValid(db, data) by {
        forall field ensures FieldOk(db, data, field) {
          AllSignUpFieldsListed(field);
          assert field !in invalid;
        }
      }
      Ok(data)
    else
      assert forall field :: !FieldOk(db, data, field) ==> field in invalid by {
        forall field | !FieldOk(db, data, field) ensures field in invalid {
          AllSignUpFieldsListed(field);
        }
      }
      Err(InvalidFields(invalid))
  }

  /** `UserSerializer.validate`. */
  function ValidateSignUp(data: SignUpData): (r: Result<SignUpData, SignUpError>)
    ensures r.Err? <==> data.password != data.confirmPassword
    ensures r.Err? ==> r.error == PasswordMismatch
    ensures r.Ok? ==> r.value == data
  {
    if data.password != data.confirmPassword then Err(PasswordMismatch) else Ok(data)
  }

  /**
   * `UserSerializer.create`: the confirmation is dropped and the user is
   * created with the phone, the password and the profile fields.
   */
  function CreateFromSignUp(db: Db, data: SignUpData): (r: Result<(Db, Id), UserError>)
    ensures r.Err? <==> data.phone == "" || PhoneRegistered(db, data.phone)
    ensures r.Ok? ==> r.value.1 !in db.users && r.value.0.users.Keys == db.users.Keys + {r.value.1}
    ensures r.Ok? ==> r.value.0 == db.(users := r.value.0.users)
    ensures r.Ok? ==> forall u :: u in db.users ==> r.value.0.users[u] == db.users[u]
    ensures r.Ok? ==>
      var user := r.value.0.users[r.value.1];
      && user.phone == data.phone
      && user.credential == PasswordSet(data.password)
      && user.firstName == data.firstName && user.lastName == data.lastName
      && user.province == data.province && user.gender == data.gender
      && !user.isStaff && !user.isSuperuser
  {
    CreateUser(db, data.phone, Some(data.password),
               ExtraFields(data.firstName, data.lastName, data.province, data.gender, None, None))
  }

  /**
   * `is_valid` followed by `save` on `UserSerializer`: field validation,
   * then the password comparison, then creation. A valid phone is neither
   * blank nor registered, so creation cannot fail once validation passes.
   */
  function SignUp(db: Db, data: SignUpData): (r: Result<(Db, Id), SignUpError>)
    ensures r.Ok? <==> FieldsValid(db, data) && data.password == data.confirmPassword
    ensures !FieldsValid(db, data) ==>
      && r.Err? && r.error.InvalidFields?
      && forall field :: field in r.error.fields <==> !FieldOk(db, data, field)
    ensures FieldsValid(db, data) && data.password != data.confirmPassword ==> r == Err(PasswordMismatch)
    ensures r.Ok? ==> r.value.1 !in db.users && r.value.0.users.Keys == db.users.Keys + {r.value.1}
    ensures r.Ok? ==> r.value.0 == db.(users := r.value.0.users)
    ensures r.Ok? ==> forall u :: u in db.users ==> r.value.0.users[u] == db.users[u]
    ensures r.Ok? ==>
      var user := r.value.0.users[r.value.1];
      && user.phone == data.phone
      && user.credential == PasswordSet(data.password)
      && user.firstName == data.firstName && user.lastName == data.lastName
      && user.province == data.province && user.gender == data.gender
      && !user.isStaff && !user.isSuperuser
  {
    match ValidateFields(db, data)
    case Err(e) => Err(e)
    case Ok(_) =>
      match ValidateSignUp(data)
      case Err(e) => Err(e)
      case Ok(_) =>
        var created := CreateFromSignUp(db, data);
        assert created.Ok? by {
          assert FieldOk(db, data, PhoneField);
        }
        Ok(created.value)
  }

  /**
   * The OTP step's phone check and sign-up agree: a number the OTP step
   * refuses as registered is reported as an invalid phone at sign-up, and a
   * number it accepts does not stop `create_user`.
   */
  lemma PhoneCheckAgreesWithSignUp(db: Db, data: SignUpData)
    ensures ValidatePhoneNumber(db, data.phone).Err? ==>
      SignUp(db, data).Err? && SignUp(db, data).error.InvalidFields? &&
      PhoneField in SignUp(db, data).error.fields
    ensures ValidatePhoneNumber(db, data.phone).Ok? && data.phone != "" ==>
      CreateFromSignUp(db, data).Ok?
  {
    if ValidatePhoneNumber(db, data.phone).Err? {
      assert !FieldOk(db, data, PhoneField);
    }
  }

  // ---------------------------------------------------------------------
  // UserResponseSerializer.validate
  // ---------------------------------------------------------------------

  /**
   * The related fields resolve both posted keys before `validate` runs and
   * report every key that names no row at once; the two checks of
   * `validate` follow in order.
   */
  datatype ResponseError =
    | UnknownKeys(question: bool, choice: bool)   // which posted keys name no row
    | Duplicate                                   // the user already answered the question
    | ChoiceMismatch                              // the choice belongs to another question

  /**
   * `UserResponseSerializer.validate`, preceded by the resolution of the
   * posted keys to rows that the related fields perform.
   */
  function ValidateResponse(db: Db, user: Id, question: Id, choice: Id): (r: Result<(Id, Id), ResponseError>)
    ensures (r.Err? && r.error.UnknownKeys?) <==> question !in db.questions || choice !in db.choices
    ensures r.Err? && r.error.UnknownKeys? ==>
      r.error.question == (question !in db.questions) && r.error.choice == (choice !in db.choices)
    ensures r == Err(Duplicate) <==>
      question in db.questions && choice in db.choices && Answered(db.responses, user, question)
    ensures r == Err(ChoiceMismatch) <==>
      question in db.questions && choice in db.choices && !Answered(db.responses, user, question) &&
      db.choices[choice].question != question
    ensures r.Ok? ==> r.value == (question, choice)
  {
    if question !in db.questions || choice !in db.choices then
      Err(UnknownKeys(question !in db.questions, choice !in db.choices))
    else if Answered(db.responses, user, question) then
      Err(Duplicate)
    else if db.choices[choice].question != question then
      Err(ChoiceMismatch)
    else
      Ok((question, choice))
  }

  /**
   * For the active question, the serializer accepts exactly the answers the
   * submission view accepts.
   */
  lemma ValidatorAgreesWithSubmit(db: Db, user: Id, question: Id, choice: Id)
    requires user in db.users
    requires AtMostOneActive(db.questions)
    requires question in db.questions && db.questions[question].isActive
    ensures ValidateResponse(db, user, question, choice).Ok? <==>
      Views.Submit(db, Some(user), Some(choice)).1.Created?
  {
  }

  // ---------------------------------------------------------------------
  // ChoiceSerializer
  // ---------------------------------------------------------------------

  /** The public fields of a choice. */
  datatype ChoicePayload = ChoicePayload(id: Id, text: string)

  /** `ChoiceSerializer(many=True)` over the choices of question `q`. */
  function ChoicesPayload(db: Db, q: Id): (r: set<ChoicePayload>)
    ensures forall p :: p in r ==>
      p.id in db.choices && db.choices[p.id].question == q && db.choices[p.id].text == p.text
    ensures forall c :: c in db.choices && db.choices[c].question == q ==>
      ChoicePayload(c, db.choices[c].text) in r
  {
    set c | c in db.choices && db.choices[c].question == q :: ChoicePayload(c, db.choices[c].text)
  }

  /** Which choice is correct cannot be read off the payload. */
  lemma PayloadHidesCorrectness(db: Db, db': Db, q: Id)
    requires db'.choices.Keys == db.choices.Keys
    requires forall c :: c in db.choices ==>
      db'.choices[c] == db.choices[c].(isCorrect := db'.choices[c].isCorrect)
    ensures ChoicesPayload(db', q) == ChoicesPayload(db, q)
  {
  }
}
