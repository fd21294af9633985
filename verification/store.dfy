/**
 * The relational store of the quiz backend (home/models.py): one datatype per
 * model class, one finite map per table, the queries the views and the
 * rotation jobs run, and the integrity invariant every operation keeps.
 */
module Store {
  import opened Common

  /** How a user's password is kept; the hashing itself is not modelled. */
  datatype Credential = Unusable | PasswordSet(raw: string)

  /** `User`: identified by its unique phone number. */
  datatype User = User(
    phone: string,
    firstName: string,
    lastName: string,
    province: string,
    gender: string,
    credential: Credential,
    isStaff: bool,
    isSuperuser: bool)

  /** `PhoneOTP`: the last code issued to a phone number. */
  datatype PhoneOtp = PhoneOtp(otp: string, createdAt: Timestamp, isVerified: bool)

  /**
   * `Question`: `correctResponders` is the many-to-many relation to users,
   * kept with the question it belongs to.
   */
  datatype Question = Question(text: string, expiry: Timestamp, isActive: bool, correctResponders: set<Id>)

  /** `Choice`: owned by one question. */
  datatype Choice = Choice(question: Id, text: string, isCorrect: bool)

  /** `UserResponse`: one user's answer to one question. */
  datatype UserResponse = UserResponse(user: Id, question: Id, selectedChoice: Id, isCorrect: bool)

  datatype TicketStatus = Pending | Replied

  /** `Ticket`: a support request filed by a user. */
  datatype Ticket = Ticket(subject: string, body: string, user: Id, status: TicketStatus)

  /** `TicketReply`: an administrator's answer to a ticket. */
  datatype TicketReply = TicketReply(ticket: Id, replyBody: string, admin: Option<Id>)

  /** `ContactInfo`: the site's contact details; every field is optional. */
  datatype ContactInfo = ContactInfo(
    address: Option<string>,
    phone: Option<string>,
    telegramId: Option<string>,
    itaId: Option<string>,
    whatsappId: Option<string>,
    instagramId: Option<string>)

  /** The whole store. OTP records are keyed by their (unique) phone number. */
  datatype Db = Db(
    users: map<Id, User>,
    otps: map<string, PhoneOtp>,
    questions: map<Id, Question>,
    choices: map<Id, Choice>,
    responses: map<Id, UserResponse>,
    tickets: map<Id, Ticket>,
    replies: map<Id, TicketReply>,
    contacts: map<Id, ContactInfo>)

  // ---------------------------------------------------------------------
  // Queries
  // ---------------------------------------------------------------------

  /** The keys of the questions whose active flag is set. */
  function ActiveIds(qs: map<Id, Question>): set<Id> {
    set id | id in qs && qs[id].isActive
  }

  /** The repository's main invariant: at most one question is active. */
  predicate AtMostOneActive(qs: map<Id, Question>) {
    forall a, b :: a in qs && b in qs && qs[a].isActive && qs[b].isActive ==> a == b
  }

  /**
   * `Question.objects.filter(is_active=True).first()`. The queryset has no
   * ordering of its own, so `first()` orders by primary key.
   */
  function ActiveQuestion(qs: map<Id, Question>): (r: Option<Id>)
    ensures r.None? <==> (forall id :: id in qs ==> !qs[id].isActive)
    ensures r.Some? ==> r.value in qs && qs[r.value].isActive
    ensures r.Some? ==> forall id :: id in qs && qs[id].isActive ==> r.value <= id
  {
    var active := ActiveIds(qs);
    assert forall id :: id in qs && qs[id].isActive ==> id in active;
    if active == {} then None else Some(MinId(active))
  }

  /** With at most one active question, the lookup finds exactly that one. */
  lemma ActiveQuestionIsTheActiveOne(qs: map<Id, Question>, id: Id)
    requires AtMostOneActive(qs)
    ensures ActiveQuestion(qs) == Some(id) <==> id in qs && qs[id].isActive
  {
  }

  /** `UserResponse.objects.filter(user=..., question=...).exists()`. */
  predicate Answered(responses: map<Id, UserResponse>, user: Id, question: Id) {
    exists r :: r in responses && responses[r].user == user && responses[r].question == question
  }

  /** The user has a response to the question that was judged correct. */
  ghost predicate AnsweredCorrectly(responses: map<Id, UserResponse>, user: Id, question: Id) {
    exists r :: r in responses && responses[r].user == user && responses[r].question == question && responses[r].isCorrect
  }

  /** `id` is a question of `pool` whose expiry no other question of `pool` precedes. */
  ghost predicate IsEarliest(qs: map<Id, Question>, pool: set<Id>, id: Id) {
    && id in pool
    && pool <= qs.Keys
    && forall j :: j in pool ==> qs[id].expiry <= qs[j].expiry
  }

  lemma {:induction false} EarliestExists(qs: map<Id, Question>, pool: set<Id>)
    requires pool != {} && pool <= qs.Keys
    ensures exists id :: IsEarliest(qs, pool, id)
  {
    var x :| x in pool;
    if pool == {x} {
      assert IsEarliest(qs, pool, x);
    } else {
      EarliestExists(qs, pool - {x});
      var m :| IsEarliest(qs, pool - {x}, m);
      var first := if qs[x].expiry <= qs[m].expiry then x else m;
      forall j | j in pool ensures qs[first].expiry <= qs[j].expiry {
        if j != x { assert j in pool - {x}; }
      }
      assert IsEarliest(qs, pool, first);
    }
  }

  /** `filter(expiry_date__gt=now)`: the questions that have not expired at `now`. */
  function Unexpired(qs: map<Id, Question>, now: Timestamp): set<Id> {
    set id | id in qs && qs[id].expiry > now
  }

  /**
   * `order_by('expiry_date').first()` over `pool`: some question of minimal
   * expiry. Which one among equal expiries is left to the store.
   */
  ghost function Earliest(qs: map<Id, Question>, pool: set<Id>): (id: Id)
    requires pool != {} && pool <= qs.Keys
    ensures IsEarliest(qs, pool, id)
  {
    EarliestExists(qs, pool);
    var id :| IsEarliest(qs, pool, id);
    id
  }

  // ---------------------------------------------------------------------
  // Integrity invariant
  // ---------------------------------------------------------------------

  /** Every choice belongs to a stored question. */
  ghost predicate ChoicesOwned(db: Db) {
    forall c :: c in db.choices ==> db.choices[c].question in db.questions
  }

  /**
   * Every response points at a stored user, question and choice, its choice
   * belongs to its question, and its correctness is the choice's.
   */
  ghost predicate ResponsesWellFormed(db: Db) {
    forall r :: r in db.responses ==>
      && db.responses[r].user in db.users
      && db.responses[r].question in db.questions
      && db.responses[r].selectedChoice in db.choices
      && db.choices[db.responses[r].selectedChoice].question == db.responses[r].question
      && db.responses[r].isCorrect == db.choices[db.responses[r].selectedChoice].isCorrect
  }

  /** At most one response per (user, question) pair. */
  ghost predicate OneResponsePerPair(responses: map<Id, UserResponse>) {
    forall r1, r2 ::
      (r1 in responses && r2 in responses &&
       responses[r1].user == responses[r2].user &&
       responses[r1].question == responses[r2].question) ==> r1 == r2
  }

  /** A question's correct responders are exactly the users who answered it correctly. */
  ghost predicate RespondersRecorded(db: Db) {
    forall q, u :: q in db.questions ==>
      (u in db.questions[q].correctResponders <==> AnsweredCorrectly(db.responses, u, q))
  }

  /** Phone numbers identify users and are never empty. */
  ghost predicate UsersWellFormed(db: Db) {
    && (forall u :: u in db.users ==> db.users[u].phone != "")
    && (forall a, b :: a in db.users && b in db.users && db.users[a].phone == db.users[b].phone ==> a == b)
  }

  /** Every reply belongs to a stored ticket, and that ticket is marked replied. */
  ghost predicate RepliesRecorded(db: Db) {
    forall r :: r in db.replies ==>
      db.replies[r].ticket in db.tickets && db.tickets[db.replies[r].ticket].status == Replied
  }

  /** At most one ContactInfo row. */
  ghost predicate SingleContact(contacts: map<Id, ContactInfo>) {
    forall a, b :: a in contacts && b in contacts ==> a == b
  }

  /** The store's integrity invariant. */
  ghost predicate Valid(db: Db) {
    && AtMostOneActive(db.questions)
    && ChoicesOwned(db)
    && ResponsesWellFormed(db)
    && OneResponsePerPair(db.responses)
    && RespondersRecorded(db)
    && UsersWellFormed(db)
    && RepliesRecorded(db)
    && SingleContact(db.contacts)
  }

  /** The empty store satisfies the invariant. */
  function Empty(): (db: Db)
    ensures Valid(db)
  {
    Db(map[], map[], map[], map[], map[], map[], map[], map[])
  }
}
