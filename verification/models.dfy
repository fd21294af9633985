/**
 * The save hooks and managers of home/models.py as pure transitions over the
 * store: activating a question, cascading deletes, recording a response,
 * creating users, issuing OTP codes, replying to tickets and the ContactInfo
 * singleton.
 */
module Models {
  import opened Common
  import opened Store
  import Decimal

  // ---------------------------------------------------------------------
  // CustomUserManager
  // ---------------------------------------------------------------------

  datatype UserError =
    | PhoneRequired   // `create_user` raises ValueError on an empty phone number
    | PhoneTaken      // the unique constraint on `phone_number` rejects the insert

  /** The keyword arguments `create_user` passes on to the model. */
  datatype ExtraFields = ExtraFields(
    firstName: string,
    lastName: string,
    province: string,
    gender: string,
    isStaff: Option<bool>,
    isSuperuser: Option<bool>)

  /** `User.objects.filter(phone_number=phone).exists()`. */
  predicate PhoneRegistered(db: Db, phone: string) {
    exists u :: u in db.users && db.users[u].phone == phone
  }

  /** `set_password(password)`: `None` leaves the account without a usable password. */
  function CredentialFor(password: Option<string>): Credential {
    match password
    case Some(p) => PasswordSet(p)
    case None => Unusable
  }

  /** `CustomUserManager.create_user`. */
  function CreateUser(db: Db, phone: string, password: Option<string>, extra: ExtraFields): (r: Result<(Db, Id), UserError>)
    ensures r == Err(PhoneRequired) <==> phone == ""
    ensures r == Err(PhoneTaken) <==> phone != "" && PhoneRegistered(db, phone)
    ensures r.Ok? ==> r.value.1 !in db.users
    ensures r.Ok? ==> r.value.0 == db.(users := r.value.0.users)
    ensures r.Ok? ==> r.value.0.users.Keys == db.users.Keys + {r.value.1}
    ensures r.Ok? ==> forall u :: u in db.users ==> r.value.0.users[u] == db.users[u]
    ensures r.Ok? ==>
      var user := r.value.0.users[r.value.1];
      && user.phone == phone
      && user.credential == CredentialFor(password)
      && user.firstName == extra.firstName && user.lastName == extra.lastName
      && user.province == extra.province && user.gender == extra.gender
      && user.isStaff == (extra.isStaff == Some(true))
      && user.isSuperuser == (extra.isSuperuser == Some(true))
  {
    if phone == "" then
      Err(PhoneRequired)
    else if PhoneRegistered(db, phone) then
      Err(PhoneTaken)
    else
      var id := FreshId(db.users.Keys);
      var user := User(phone, extra.firstName, extra.lastName, extra.province, extra.gender,
                       CredentialFor(password), extra.isStaff.GetOr(false), extra.isSuperuser.GetOr(false));
      Ok((db.(users := db.users[id := user]), id))
  }

  /** `CustomUserManager.create_superuser`: both flags default to true. */
  function CreateSuperuser(db: Db, phone: string, password: Option<string>, extra: ExtraFields): (r: Result<(Db, Id), UserError>)
    ensures r.Err? <==> CreateUser(db, phone, password, extra).Err?
    ensures r.Err? ==> r == CreateUser(db, phone, password, extra)
    ensures r.Ok? ==> r.value.1 !in db.users && r.value.0.users.Keys == db.users.Keys + {r.value.1}
    ensures r.Ok? ==> r.value.0 == db.(users := r.value.0.users)
    ensures r.Ok? ==> forall u :: u in db.users ==> r.value.0.users[u] == db.users[u]
    ensures r.Ok? ==>
      var user := r.value.0.users[r.value.1];
      && user.phone == phone
      && user.credential == CredentialFor(password)
      && user.firstName == extra.firstName && user.lastName == extra.lastName
      && user.province == extra.province && user.gender == extra.gender
    ensures r.Ok? ==> extra.isStaff != Some(false) ==> r.value.0.users[r.value.1].isStaff
    ensures r.Ok? ==> extra.isSuperuser != Some(false) ==> r.value.0.users[r.value.1].isSuperuser
    ensures r.Ok? ==> extra.isStaff == Some(false) ==> !r.value.0.users[r.value.1].isStaff
    ensures r.Ok? ==> extra.isSuperuser == Some(false) ==> !r.value.0.users[r.value.1].isSuperuser
  {
    var flags := extra.(isStaff := Some(extra.isStaff.GetOr(true)), isSuperuser := Some(extra.isSuperuser.GetOr(true)));
    CreateUser(db, phone, password, flags)
  }

  lemma CreateUserPreservesValid(db: Db, phone: string, password: Option<string>, extra: ExtraFields)
    requires Valid(db)
    ensures CreateUser(db, phone, password, extra).Ok? ==> Valid(CreateUser(db, phone, password, extra).value.0)
  {
  }

  // ---------------------------------------------------------------------
  // PhoneOTP.generate_otp
  // ---------------------------------------------------------------------

  /** The bounds of `random.randint(100000, 999999)`, both inclusive. */
  const OtpLow: nat := 100000
  const OtpHigh: nat := 999999

  /**
   * `PhoneOTP.generate_otp`: `draw` is the value the random generator
   * returned; the code is its decimal rendering and the record is stamped
   * with the current time.
   */
  function GenerateOtp(db: Db, phone: string, now: Timestamp, draw: nat): (r: Db)
    requires OtpLow <= draw <= OtpHigh
    ensures r == db.(otps := r.otps)
    ensures r.otps.Keys == db.otps.Keys + {phone}
    ensures forall p :: p in db.otps && p != phone ==> r.otps[p] == db.otps[p]
    ensures r.otps[phone].createdAt == now
    ensures phone in db.otps ==> r.otps[phone].isVerified == db.otps[phone].isVerified
    ensures phone !in db.otps ==> !r.otps[phone].isVerified
    ensures var code := r.otps[phone].otp;
      && |code| == 6
      && Decimal.AllDigits(code)
      && code[0] != '0'
      && Decimal.ValueOf(code) == draw
  {
    var code := Decimal.ToDecimal(draw);
    Decimal.DecimalLength(draw, 5);
    Decimal.ValueOfToDecimal(draw);
    Decimal.NoLeadingZero(draw);
    var verified := if phone in db.otps then db.otps[phone].isVerified else false;
    db.(otps := db.otps[phone := PhoneOtp(code, now, verified)])
  }

  // ---------------------------------------------------------------------
  // Question.save and the cascade from Question to Choice and UserResponse
  // ---------------------------------------------------------------------

  /** `Question.objects.exclude(pk=pk).update(is_active=False)`; an unsaved question excludes nothing. */
  function DeactivateOthers(qs: map<Id, Question>, pk: Option<Id>): map<Id, Question> {
    map id | id in qs :: if pk.None? || id != pk.value then qs[id].(isActive := false) else qs[id]
  }

  /**
   * `Question.save`: saving an active question first deactivates every other
   * question, then writes the row. The many-to-many responders are not part
   * of the row, so an existing question keeps its own.
   */
  function SaveQuestion(db: Db, pk: Option<Id>, text: string, expiry: Timestamp, isActive: bool): (r: (Db, Id))
    ensures r.0 == db.(questions := r.0.questions)
    ensures pk.Some? ==> r.1 == pk.value
    ensures pk.None? ==> r.1 !in db.questions
    ensures r.0.questions.Keys == db.questions.Keys + {r.1}
    ensures r.0.questions[r.1].text == text && r.0.questions[r.1].expiry == expiry
    ensures r.0.questions[r.1].isActive == isActive
    ensures r.0.questions[r.1].correctResponders ==
      (if r.1 in db.questions then db.questions[r.1].correctResponders else {})
    ensures isActive ==> ActiveIds(r.0.questions) == {r.1}
    ensures !isActive ==> ActiveIds(r.0.questions) == ActiveIds(db.questions) - {r.1}
    ensures forall id :: id in db.questions && id != r.1 ==>
      r.0.questions[id] == db.questions[id].(isActive := db.questions[id].isActive && !isActive)
  {
    var id := if pk.Some? then pk.value else FreshId(db.questions.Keys);
    var others := if isActive then DeactivateOthers(db.questions, pk) else db.questions;
    var responders := if id in db.questions then db.questions[id].correctResponders else {};
    var qs := others[id := Question(text, expiry, isActive, responders)];
    assert isActive ==> ActiveIds(qs) == {id} by {
      if isActive {
        forall j | j in qs && qs[j].isActive ensures j == id {
        }
      }
    }
    (db.(questions := qs), id)
  }

  /** `q.is_active = True; q.save()` for a stored question `id`. */
  function Activate(db: Db, id: Id): (r: Db)
    requires id in db.questions
    ensures r == db.(questions := r.questions)
    ensures r.questions.Keys == db.questions.Keys
    ensures ActiveIds(r.questions) == {id}
    ensures AtMostOneActive(r.questions)
    ensures forall j :: j in db.questions ==> r.questions[j] == db.questions[j].(isActive := j == id)
  {
    var q := db.questions[id];
    SaveQuestion(db, Some(id), q.text, q.expiry, true).0
  }

  /** Saving a question, active or not, keeps the store's integrity invariant. */
  lemma SaveQuestionPreservesValid(db: Db, pk: Option<Id>, text: string, expiry: Timestamp, isActive: bool)
    requires Valid(db)
    ensures Valid(SaveQuestion(db, pk, text, expiry, isActive).0)
  {
  }

  lemma ActivatePreservesValid(db: Db, id: Id)
    requires Valid(db) && id in db.questions
    ensures Valid(Activate(db, id))
  {
  }

  /** A response is removed with its question, and with its choice. */
  predicate ResponseSurvives(db: Db, doomed: set<Id>, resp: UserResponse) {
    && resp.question !in doomed
    && !(resp.selectedChoice in db.choices && db.choices[resp.selectedChoice].question in doomed)
  }

  /**
   * Deleting the questions `doomed`: `on_delete=CASCADE` removes their
   * choices and every response to them or selecting one of those choices;
   * the responder relation goes with the question.
   */
  function DeleteQuestions(db: Db, doomed: set<Id>): (r: Db)
    ensures r == db.(questions := r.questions, choices := r.choices, responses := r.responses)
    ensures r.questions.Keys == db.questions.Keys - doomed
    ensures forall id :: id in r.questions ==> r.questions[id] == db.questions[id]
    ensures forall c :: c in r.choices <==> c in db.choices && db.choices[c].question !in doomed
    ensures forall c :: c in r.choices ==> r.choices[c] == db.choices[c]
    ensures forall x :: x in r.responses <==> x in db.responses && ResponseSurvives(db, doomed, db.responses[x])
    ensures forall x :: x in r.responses ==> r.responses[x] == db.responses[x]
  {
    var qs := map id | id in db.questions && id !in doomed :: db.questions[id];
    var cs := map c | c in db.choices && db.choices[c].question !in doomed :: db.choices[c];
    var rs := map x | x in db.responses && ResponseSurvives(db, doomed, db.responses[x]) :: db.responses[x];
    db.(questions := qs, choices := cs, responses := rs)
  }

  lemma DeleteQuestionsPreservesValid(db: Db, doomed: set<Id>)
    requires Valid(db)
    ensures Valid(DeleteQuestions(db, doomed))
  {
  }

  // ---------------------------------------------------------------------
  // UserResponse.save and the responder relation
  // ---------------------------------------------------------------------

  /** `question.correct_responders.add(user)`: a set insertion, so repeating it changes nothing. */
  function AddCorrectResponder(db: Db, q: Id, u: Id): (r: Db)
    requires q in db.questions
    ensures r == db.(questions := r.questions)
    ensures r.questions.Keys == db.questions.Keys
    ensures u in r.questions[q].correctResponders
    ensures r.questions[q] == db.questions[q].(correctResponders := r.questions[q].correctResponders)
    ensures forall v :: v != u ==> (v in r.questions[q].correctResponders <==> v in db.questions[q].correctResponders)
    ensures forall j :: j in db.questions && j != q ==> r.questions[j] == db.questions[j]
    ensures u in db.questions[q].correctResponders ==> r == db
  {
    var question := db.questions[q];
    var added := question.(correctResponders := question.correctResponders + {u});
    if u in question.correctResponders then
      assert added == question;
      db
    else
      db.(questions := db.questions[q := added])
  }

  /** Adding a responder twice is the same as adding once. */
  lemma AddCorrectResponderIdempotent(db: Db, q: Id, u: Id)
    requires q in db.questions
    ensures AddCorrectResponder(AddCorrectResponder(db, q, u), q, u) == AddCorrectResponder(db, q, u)
  {
  }

  /**
   * `UserResponse.save` for a new response: when the selected choice is
   * correct the response is marked correct and its user joins the
   * question's correct responders; otherwise the relation is untouched.
   */
  function SaveResponse(db: Db, resp: UserResponse): (r: (Db, Id))
    requires resp.question in db.questions && resp.selectedChoice in db.choices
    ensures r.0 == db.(questions := r.0.questions, responses := r.0.responses)
    ensures r.1 !in db.responses
    ensures r.0.responses.Keys == db.responses.Keys + {r.1}
    ensures forall x :: x in db.responses ==> r.0.responses[x] == db.responses[x]
    ensures r.0.responses[r.1].user == resp.user && r.0.responses[r.1].question == resp.question
    ensures r.0.responses[r.1].selectedChoice == resp.selectedChoice
    ensures db.choices[resp.selectedChoice].isCorrect ==> r.0.responses[r.1].isCorrect
    ensures !db.choices[resp.selectedChoice].isCorrect ==> r.0.responses[r.1].isCorrect == resp.isCorrect
    ensures db.choices[resp.selectedChoice].isCorrect ==> r.0.questions == AddCorrectResponder(db, resp.question, resp.user).questions
    ensures !db.choices[resp.selectedChoice].isCorrect ==> r.0.questions == db.questions
  {
    var correct := db.choices[resp.selectedChoice].isCorrect;
    var saved := if correct then resp.(isCorrect := true) else resp;
    var db1 := if correct then AddCorrectResponder(db, resp.question, resp.user) else db;
    var id := FreshId(db.responses.Keys);
    (db1.(responses := db1.responses[id := saved]), id)
  }

  // ---------------------------------------------------------------------
  // Choice, as the question admin's inline form creates it
  // ---------------------------------------------------------------------

  datatype ChoiceError = QuestionMissing   // the foreign key names no stored question

  /**
   * Creating a choice of question `question`: the foreign key must name a
   * stored question; the new row gets a fresh key and nothing else changes.
   */
  function CreateChoice(db: Db, question: Id, text: string, isCorrect: bool): (r: Result<(Db, Id), ChoiceError>)
    ensures r.Err? <==> question !in db.questions
    ensures r.Ok? ==> r.value.1 !in db.choices
    ensures r.Ok? ==> r.value.0 == db.(choices := db.choices[r.value.1 := Choice(question, text, isCorrect)])
  {
    if question !in db.questions then
      Err(QuestionMissing)
    else
      var id := FreshId(db.choices.Keys);
      Ok((db.(choices := db.choices[id := Choice(question, text, isCorrect)]), id))
  }

  lemma CreateChoicePreservesValid(db: Db, question: Id, text: string, isCorrect: bool)
    requires Valid(db)
    ensures CreateChoice(db, question, text, isCorrect).Ok? ==>
      Valid(CreateChoice(db, question, text, isCorrect).value.0)
  {
  }

  // ---------------------------------------------------------------------
  // Ticket and TicketReply.save
  // ---------------------------------------------------------------------

  /** `Ticket.objects.create(user=..., ...)`: a new ticket starts pending. */
  function CreateTicket(db: Db, user: Id, subject: string, body: string): (r: (Db, Id))
    ensures r.0 == db.(tickets := r.0.tickets)
    ensures r.1 !in db.tickets
    ensures r.0.tickets.Keys == db.tickets.Keys + {r.1}
    ensures forall t :: t in db.tickets ==> r.0.tickets[t] == db.tickets[t]
    ensures r.0.tickets[r.1].status == Pending
    ensures r.0.tickets[r.1].user == user
    ensures r.0.tickets[r.1].subject == subject && r.0.tickets[r.1].body == body
  {
    var id := FreshId(db.tickets.Keys);
    (db.(tickets := db.tickets[id := Ticket(subject, body, user, Pending)]), id)
  }

  /**
   * `TicketReply.save`: the reply is written, then its ticket is marked
   * replied unless it already is.
   */
  function SaveReply(db: Db, pk: Option<Id>, reply: TicketReply): (r: (Db, Id))
    requires reply.ticket in db.tickets
    ensures r.0 == db.(tickets := r.0.tickets, replies := r.0.replies)
    ensures pk.Some? ==> r.1 == pk.value
    ensures pk.None? ==> r.1 !in db.replies
    ensures r.0.replies == db.replies[r.1 := reply]
    ensures r.0.tickets.Keys == db.tickets.Keys
    ensures r.0.tickets[reply.ticket].status == Replied
    ensures r.0.tickets[reply.ticket] == db.tickets[reply.ticket].(status := Replied)
    ensures forall t :: t in db.tickets && t != reply.ticket ==> r.0.tickets[t] == db.tickets[t]
    ensures db.tickets[reply.ticket].status == Replied ==> r.0.tickets == db.tickets
  {
    var id := if pk.Some? then pk.value else FreshId(db.replies.Keys);
    var db1 := db.(replies := db.replies[id := reply]);
    var ticket := db.tickets[reply.ticket];
    if ticket.status != Replied then
      (db1.(tickets := db.tickets[reply.ticket := ticket.(status := Replied)]), id)
    else
      (db1, id)
  }

  lemma CreateTicketPreservesValid(db: Db, user: Id, subject: string, body: string)
    requires Valid(db)
    ensures Valid(CreateTicket(db, user, subject, body).0)
  {
  }

  lemma SaveReplyPreservesValid(db: Db, pk: Option<Id>, reply: TicketReply)
    requires Valid(db) && reply.ticket in db.tickets
    ensures Valid(SaveReply(db, pk, reply).0)
  {
  }

  // ---------------------------------------------------------------------
  // ContactInfo.save
  // ---------------------------------------------------------------------

  datatype ContactError = ContactExists

  /**
   * `ContactInfo.save` as written: only an instance without a primary key
   * is refused while a row exists.
   */
  function SaveContactInfo(db: Db, pk: Option<Id>, info: ContactInfo): (r: Result<(Db, Id), ContactError>)
    ensures r.Err? <==> pk.None? && db.contacts != map[]
    ensures r.Ok? ==> r.value.0 == db.(contacts := db.contacts[r.value.1 := info])
    ensures r.Ok? && pk.Some? ==> r.value.1 == pk.value
    ensures r.Ok? && pk.None? ==> r.value.1 !in db.contacts
  {
    if pk.None? && db.contacts != map[] then
      Err(ContactExists)
    else
      var id := if pk.Some? then pk.value else FreshId(db.contacts.Keys);
      Ok((db.(contacts := db.contacts[id := info]), id))
  }

  /** Saving with an explicit, unused primary key gets past the guard and leaves two rows. */
  lemma ContactSingletonBypass(info: ContactInfo)
    ensures var db := Empty().(contacts := map[1 := info]);
      && SaveContactInfo(db, Some(2), info).Ok?
      && !SingleContact(SaveContactInfo(db, Some(2), info).value.0.contacts)
  {
    var db := Empty().(contacts := map[1 := info]);
    var after := SaveContactInfo(db, Some(2), info).value.0.contacts;
    assert 1 in after && 2 in after;
  }

  /**
   * The singleton rule as intended: a save that would insert a row is
   * refused while a row exists; updating the stored row is allowed.
   */
  function SaveContactInfoGuarded(db: Db, pk: Option<Id>, info: ContactInfo): (r: Result<(Db, Id), ContactError>)
    ensures r.Err? <==> (pk.None? || pk.value !in db.contacts) && db.contacts != map[]
    ensures r.Ok? ==> r.value.0 == db.(contacts := db.contacts[r.value.1 := info])
    ensures r.Ok? && pk.Some? ==> r.value.1 == pk.value
    ensures SingleContact(db.contacts) && r.Ok? ==> SingleContact(r.value.0.contacts)
    ensures pk.None? || pk.value in db.contacts ==> r == SaveContactInfo(db, pk, info)
  {
    if (pk.None? || pk.value !in db.contacts) && db.contacts != map[] then
      Err(ContactExists)
    else
      var id := if pk.Some? then pk.value else FreshId(db.contacts.Keys);
      Ok((db.(contacts := db.contacts[id := info]), id))
  }

  lemma GenerateOtpPreservesValid(db: Db, phone: string, now: Timestamp, draw: nat)
    requires Valid(db) && OtpLow <= draw <= OtpHigh
    ensures Valid(GenerateOtp(db, phone, now, draw))
  {
  }

  lemma SaveContactInfoGuardedPreservesValid(db: Db, pk: Option<Id>, info: ContactInfo)
    requires Valid(db)
    ensures SaveContactInfoGuarded(db, pk, info).Ok? ==> Valid(SaveContactInfoGuarded(db, pk, info).value.0)
  {
  }
}
