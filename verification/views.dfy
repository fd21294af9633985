/**
 * The request handlers of home/views.py that carry logic: answer
 * submission, the correct-responders listing, the active-question lookup and
 * the argument guard of the login view. Authentication and token issuance
 * are outside the model: the submitting user arrives as an input.
 */
module Views {
  import opened Common
  import opened Store
  import opened Models

  // ---------------------------------------------------------------------
  // SubmitResponseView.post
  // ---------------------------------------------------------------------

  /** The rejections of a submission, in the order they are checked. */
  datatype SubmitError =
    | Unauthenticated    // 401
    | NoActiveQuestion   // 400
    | AlreadyAnswered    // 400
    | InvalidChoice      // 400

  datatype SubmitReply = Created(isCorrect: bool) | Rejected(error: SubmitError) {
    /** The HTTP status code of the reply. */
    function Status(): int {
      match this
      case Created(_) => 201
      case Rejected(Unauthenticated) => 401
      case Rejected(_) => 400
    }
  }

  /** `Choice.objects.filter(id=choice, question=q).first()` finds a row. */
  predicate ChoiceOf(db: Db, choice: Option<Id>, q: Id) {
    choice.Some? && choice.value in db.choices && db.choices[choice.value].question == q
  }

  /** The user may answer the active question `q` with `choice`. */
  ghost predicate MayAnswer(db: Db, user: Id, q: Id, choice: Option<Id>) {
    && q in db.questions
    && db.questions[q].isActive
    && !Answered(db.responses, user, q)
    && ChoiceOf(db, choice, q)
  }

  /**
   * `SubmitResponseView.post`. `auth` is the authenticated user, `None` for
   * an anonymous request; `choice` is the posted `selected_choice_id`, `None`
   * when the field is missing.
   */
  function Submit(db: Db, auth: Option<Id>, choice: Option<Id>): (r: (Db, SubmitReply))
    requires auth.Some? ==> auth.value in db.users
    ensures r.1.Rejected? ==> r.0 == db
    ensures r.1 == Rejected(Unauthenticated) <==> auth.None?
    ensures r.1 == Rejected(NoActiveQuestion) <==>
      auth.Some? && forall id :: id in db.questions ==> !db.questions[id].isActive
    ensures r.1 == Rejected(AlreadyAnswered) <==>
      auth.Some? && ActiveQuestion(db.questions).Some? &&
      Answered(db.responses, auth.value, ActiveQuestion(db.questions).value)
    ensures r.1 == Rejected(InvalidChoice) <==>
      auth.Some? && ActiveQuestion(db.questions).Some? &&
      !Answered(db.responses, auth.value, ActiveQuestion(db.questions).value) &&
      !ChoiceOf(db, choice, ActiveQuestion(db.questions).value)
    ensures r.1.Status() == 201 <==> r.1.Created?
    ensures r.1.Created? ==>
      && auth.Some? && ActiveQuestion(db.questions).Some?
      && MayAnswer(db, auth.value, ActiveQuestion(db.questions).value, choice)
      && r.1.isCorrect == db.choices[choice.value].isCorrect
    ensures r.1.Created? ==>
      var u, q, c := auth.value, ActiveQuestion(db.questions).value, choice.value;
      && r.0 == db.(questions := r.0.questions, responses := r.0.responses)
      && (exists x: Id :: x !in db.responses &&
            r.0.responses == db.responses[x := UserResponse(u, q, c, db.choices[c].isCorrect)])
      && r.0.questions.Keys == db.questions.Keys
      && (forall j :: j in db.questions && j != q ==> r.0.questions[j] == db.questions[j])
      && r.0.questions[q] == db.questions[q].(correctResponders := r.0.questions[q].correctResponders)
      && (forall v :: v in r.0.questions[q].correctResponders <==>
            v in db.questions[q].correctResponders || (v == u && db.choices[c].isCorrect))
  {
    match auth
    case None => (db, Rejected(Unauthenticated))
    case Some(u) =>
      match ActiveQuestion(db.questions)
      case None => (db, Rejected(NoActiveQuestion))
      case Some(q) =>
        if Answered(db.responses, u, q) then
          (db, Rejected(AlreadyAnswered))
        else if !ChoiceOf(db, choice, q) then
          (db, Rejected(InvalidChoice))
        else
          var c := choice.value;
          var correct := db.choices[c].isCorrect;
          var saved := SaveResponse(db, UserResponse(u, q, c, correct));
          assert saved.0.responses == db.responses[saved.1 := UserResponse(u, q, c, correct)];
          var after := if correct then AddCorrectResponder(saved.0, q, u) else saved.0;
          (after, Created(correct))
  }

  /**
   * Recording answer `c` of user `u` to question `q` under the fresh key `x`,
   * together with the matching responder update, keeps the invariant.
   */
  lemma RecordAnswerPreservesValid(db: Db, db': Db, u: Id, q: Id, c: Id, x: Id)
    requires Valid(db)
    requires u in db.users && q in db.questions && c in db.choices && db.choices[c].question == q
    requires !Answered(db.responses, u, q) && x !in db.responses
    requires db' == db.(questions := db'.questions, responses := db'.responses)
    requires db'.responses == db.responses[x := UserResponse(u, q, c, db.choices[c].isCorrect)]
    requires db'.questions.Keys == db.questions.Keys
    requires forall j :: j in db.questions && j != q ==> db'.questions[j] == db.questions[j]
    requires db'.questions[q] == db.questions[q].(correctResponders := db'.questions[q].correctResponders)
    requires forall v :: v in db'.questions[q].correctResponders <==>
      v in db.questions[q].correctResponders || (v == u && db.choices[c].isCorrect)
    ensures Valid(db')
  {
    var correct := db.choices[c].isCorrect;
    assert AtMostOneActive(db'.questions) by {
      forall a | a in db'.questions ensures db'.questions[a].isActive == db.questions[a].isActive {
      }
    }
    assert ResponsesWellFormed(db');
    RecordAnswerKeepsPairsUnique(db.responses, u, q, c, correct, x);
    assert RespondersRecorded(db') by {
      forall p, v | p in db'.questions
        ensures v in db'.questions[p].correctResponders <==> AnsweredCorrectly(db'.responses, v, p)
      {
        RecordAnswerResponders(db, db', u, q, c, x, p, v);
      }
    }
  }

  lemma RecordAnswerKeepsPairsUnique(responses: map<Id, UserResponse>, u: Id, q: Id, c: Id, correct: bool, x: Id)
    requires OneResponsePerPair(responses)
    requires !Answered(responses, u, q) && x !in responses
    ensures OneResponsePerPair(responses[x := UserResponse(u, q, c, correct)])
  {
  }

  lemma RecordAnswerResponders(db: Db, db': Db, u: Id, q: Id, c: Id, x: Id, p: Id, v: Id)
    requires RespondersRecorded(db)
    requires q in db.questions && c in db.choices && x !in db.responses
    requires db'.responses == db.responses[x := UserResponse(u, q, c, db.choices[c].isCorrect)]
    requires db'.questions.Keys == db.questions.Keys
    requires forall j :: j in db.questions && j != q ==> db'.questions[j] == db.questions[j]
    requires forall v :: v in db'.questions[q].correctResponders <==>
      v in db.questions[q].correctResponders || (v == u && db.choices[c].isCorrect)
    requires p in db'.questions
    ensures v in db'.questions[p].correctResponders <==> AnsweredCorrectly(db'.responses, v, p)
  {
    var correct := db.choices[c].isCorrect;
    if AnsweredCorrectly(db'.responses, v, p) {
      var y :| y in db'.responses && db'.responses[y].user == v && db'.responses[y].question == p && db'.responses[y].isCorrect;
      if y != x {
        assert AnsweredCorrectly(db.responses, v, p);
      }
    }
    if v in db'.questions[p].correctResponders {
      if p == q && v == u && correct {
        assert db'.responses[x].user == v && db'.responses[x].question == p;
      } else {
        assert AnsweredCorrectly(db.responses, v, p);
        var y :| y in db.responses && db.responses[y].user == v && db.responses[y].question == p && db.responses[y].isCorrect;
        assert y in db'.responses && y != x;
      }
    }
  }

  /** A submission, accepted or not, keeps the store's integrity invariant. */
  lemma SubmitPreservesValid(db: Db, auth: Option<Id>, choice: Option<Id>)
    requires Valid(db)
    requires auth.Some? ==> auth.value in db.users
    ensures Valid(Submit(db, auth, choice).0)
  {
    var r := Submit(db, auth, choice);
    if r.1.Created? {
      var u, q, c := auth.value, ActiveQuestion(db.questions).value, choice.value;
      var x: Id :| x !in db.responses && r.0.responses == db.responses[x := UserResponse(u, q, c, db.choices[c].isCorrect)];
      RecordAnswerPreservesValid(db, r.0, u, q, c, x);
    }
  }

  /** After an accepted submission, the same user's next submission is refused as a duplicate. */
  lemma SubmitTwiceRejected(db: Db, u: Id, choice: Option<Id>, again: Option<Id>)
    requires u in db.users
    requires Submit(db, Some(u), choice).1.Created?
    ensures var db' := Submit(db, Some(u), choice).0;
      Submit(db', Some(u), again) == (db', Rejected(AlreadyAnswered))
  {
  }

  // ---------------------------------------------------------------------
  // ActiveQuestionView.get_object
  // ---------------------------------------------------------------------

  /** `ActiveQuestionView.get_object`: the active question, or nothing. */
  function ActiveQuestionObject(db: Db): (r: Option<Id>)
    ensures r.None? <==> forall id :: id in db.questions ==> !db.questions[id].isActive
    ensures r.Some? ==> r.value in db.questions && db.questions[r.value].isActive
    ensures AtMostOneActive(db.questions) ==>
      forall id :: id in db.questions && db.questions[id].isActive ==> r == Some(id)
  {
    ActiveQuestion(db.questions)
  }

  // ---------------------------------------------------------------------
  // CorrectRespondersView.get
  // ---------------------------------------------------------------------

  /** The profile fields the listing exposes for each responder. */
  datatype ResponderSummary = ResponderSummary(
    phone: string, firstName: string, lastName: string, province: string, gender: string)

  function Summarize(user: User): ResponderSummary {
    ResponderSummary(user.phone, user.firstName, user.lastName, user.province, user.gender)
  }

  datatype ListError = NothingActive   // 400

  /**
   * `CorrectRespondersView.get`: the active question's correct responders,
   * keyed by user, each projected to its public profile fields.
   */
  function CorrectResponders(db: Db): (r: Result<map<Id, ResponderSummary>, ListError>)
    ensures r.Err? <==> forall id :: id in db.questions ==> !db.questions[id].isActive
    ensures r.Ok? ==>
      var q := ActiveQuestion(db.questions).value;
      && r.value.Keys == db.questions[q].correctResponders * db.users.Keys
      && forall u :: u in r.value ==> r.value[u] == Summarize(db.users[u])
  {
    match ActiveQuestion(db.questions)
    case None => Err(NothingActive)
    case Some(q) =>
      Ok(map u | u in db.questions[q].correctResponders && u in db.users :: Summarize(db.users[u]))
  }

  /** In a consistent store the listing is exactly the users who answered the active question correctly. */
  lemma CorrectRespondersAreCorrectAnswerers(db: Db)
    requires Valid(db)
    ensures CorrectResponders(db).Ok? ==>
      var q := ActiveQuestion(db.questions).value;
      forall u :: u in CorrectResponders(db).value <==> AnsweredCorrectly(db.responses, u, q)
  {
  }

  // ---------------------------------------------------------------------
  // LoginView.post
  // ---------------------------------------------------------------------

  datatype LoginReply = MissingCredentials | WrongCredentials | LoggedIn(user: Id) {
    function Status(): int {
      match this
      case MissingCredentials => 400
      case WrongCredentials => 401
      case LoggedIn(_) => 200
    }
  }

  /** A request field that is present and non-empty (Python truthiness of a string). */
  predicate Given(field: Option<string>) {
    field.Some? && field.value != ""
  }

  /**
   * `LoginView.post`: a missing phone number or password is refused before
   * `authenticate` (passed in; its internals are not modelled) is consulted.
   */
  function Login(phone: Option<string>, password: Option<string>, authenticate: (string, string) -> Option<Id>): (r: LoginReply)
    ensures r == MissingCredentials <==> !Given(phone) || !Given(password)
    ensures Given(phone) && Given(password) ==>
      (r == WrongCredentials <==> authenticate(phone.value, password.value).None?)
    ensures r.LoggedIn? ==> authenticate(phone.value, password.value) == Some(r.user)
  {
    if !Given(phone) || !Given(password) then
      MissingCredentials
    else
      match authenticate(phone.value, password.value)
      case None => WrongCredentials
      case Some(u) => LoggedIn(u)
  }

  /** Without both credentials the reply does not depend on the authentication back end. */
  lemma LoginGuardPrecedesAuthentication(
    phone: Option<string>, password: Option<string>,
    auth1: (string, string) -> Option<Id>, auth2: (string, string) -> Option<Id>)
    requires !Given(phone) || !Given(password)
    ensures Login(phone, password, auth1) == Login(phone, password, auth2) == MissingCredentials
  {
  }
}
