/**
 * The system over time. The operations that write to the store are events:
 * saving a question, adding a choice, both rotation jobs and the expiry
 * command, answer submission, sign-up, tickets and replies, the corrected
 * contact-info save, and issuing a code. A run applies a sequence of events
 * in order, and the invariants hold after any run. Runs are sequential;
 * interleavings inside an operation are not modelled.
 */
module Lifecycle {
  import opened Common
  import opened Store
  import opened Models
  import Views
  import Serializers
  import Scheduler
  import ExpiryCommand

  datatype Event =
    | SaveQuestionEvent(pk: Option<Id>, text: string, expiry: Timestamp, isActive: bool)
    | AddChoice(question: Id, text: string, isCorrect: bool)
    | SchedulerTick(now: Timestamp)
    | GuardedSchedulerTick(now: Timestamp)
    | ExpiryCommandRun(now: Timestamp)
    | SubmitAnswer(auth: Option<Id>, choice: Option<Id>)
    | SignUp(data: Serializers.SignUpData)
    | FileTicket(user: Id, subject: string, body: string)
    | ReplyToTicket(pk: Option<Id>, reply: TicketReply)
    | SaveContact(pk: Option<Id>, info: ContactInfo)
    | IssueOtp(phone: string, now: Timestamp, draw: nat)

  /**
   * One event. A submission and a ticket name a stored user (a submission
   * may name none); a reply names a stored ticket; a random draw lies in
   * the generator's range. Events outside those bounds cannot be produced
   * by the system and change nothing.
   */
  ghost function Step(db: Db, e: Event): Db {
    match e
    case SaveQuestionEvent(pk, text, expiry, isActive) => SaveQuestion(db, pk, text, expiry, isActive).0
    case AddChoice(question, text, isCorrect) =>
      (match CreateChoice(db, question, text, isCorrect)
       case Ok((db', _)) => db'
       case Err(_) => db)
    case SchedulerTick(now) => Scheduler.Tick(db, now)
    case GuardedSchedulerTick(now) => Scheduler.GuardedTick(db, now)
    case ExpiryCommandRun(now) => ExpiryCommand.Handle(db, now)
    case SubmitAnswer(auth, choice) =>
      if auth.Some? && auth.value !in db.users then db else Views.Submit(db, auth, choice).0
    case SignUp(data) =>
      (match Serializers.SignUp(db, data)
       case Ok((db', _)) => db'
       case Err(_) => db)
    case FileTicket(user, subject, body) =>
      if user !in db.users then db else CreateTicket(db, user, subject, body).0
    case ReplyToTicket(pk, reply) =>
      if reply.ticket in db.tickets then SaveReply(db, pk, reply).0 else db
    case SaveContact(pk, info) =>
      (match SaveContactInfoGuarded(db, pk, info)
       case Ok((db', _)) => db'
       case Err(_) => db)
    case IssueOtp(phone, now, draw) =>
      if OtpLow <= draw <= OtpHigh then GenerateOtp(db, phone, now, draw) else db
  }

  ghost function Run(db: Db, events: seq<Event>): Db
    decreases |events|
  {
    if events == [] then db else Run(Step(db, events[0]), events[1..])
  }

  lemma StepPreservesValid(db: Db, e: Event)
    requires Valid(db)
    ensures Valid(Step(db, e))
  {
    match e
    case SaveQuestionEvent(pk, text, expiry, isActive) =>
      SaveQuestionPreservesValid(db, pk, text, expiry, isActive);
    case AddChoice(question, text, isCorrect) =>
      CreateChoicePreservesValid(db, question, text, isCorrect);
    case SchedulerTick(now) =>
      Scheduler.TickPreservesValid(db, now);
    case GuardedSchedulerTick(now) =>
      Scheduler.GuardedTickPreservesValid(db, now);
    case ExpiryCommandRun(now) =>
      ExpiryCommand.HandlePreservesValid(db, now);
    case SubmitAnswer(auth, choice) =>
      if !(auth.Some? && auth.value !in db.users) {
        Views.SubmitPreservesValid(db, auth, choice);
      }
    case SignUp(data) =>
      if Serializers.FieldsValid(db, data) && data.password == data.confirmPassword {
        var extra := ExtraFields(data.firstName, data.lastName, data.province, data.gender, None, None);
        assert Serializers.FieldOk(db, data, Serializers.PhoneField);
        CreateUserPreservesValid(db, data.phone, Some(data.password), extra);
        assert Serializers.SignUp(db, data) == Ok(CreateUser(db, data.phone, Some(data.password), extra).value);
      }
    case FileTicket(user, subject, body) =>
      CreateTicketPreservesValid(db, user, subject, body);
    case ReplyToTicket(pk, reply) =>
      if reply.ticket in db.tickets {
        SaveReplyPreservesValid(db, pk, reply);
      }
    case SaveContact(pk, info) =>
      SaveContactInfoGuardedPreservesValid(db, pk, info);
    case IssueOtp(phone, now, draw) =>
      if OtpLow <= draw <= OtpHigh {
        GenerateOtpPreservesValid(db, phone, now, draw);
      }
  }

  /** Every run from a consistent store ends in a consistent store. */
  lemma {:induction false} RunPreservesValid(db: Db, events: seq<Event>)
    requires Valid(db)
    ensures Valid(Run(db, events))
    decreases |events|
  {
    if events != [] {
      StepPreservesValid(db, events[0]);
      RunPreservesValid(Step(db, events[0]), events[1..]);
    }
  }

  /**
   * From an empty store, after any run, at most one question is active, each
   * user has at most one response per question, and there is at most one
   * contact-info row.
   */
  lemma RunFromEmpty(events: seq<Event>)
    ensures AtMostOneActive(Run(Empty(), events).questions)
    ensures OneResponsePerPair(Run(Empty(), events).responses)
    ensures SingleContact(Run(Empty(), events).contacts)
  {
    RunPreservesValid(Empty(), events);
  }

  const FirstUser := Serializers.SignUpData("09120000000", "Sara", "Ahmadi", "Tehran", "F", "pw", "pw")

  /** A sign-up, an active question with one correct choice, and an answer to it. */
  function FirstAnswerRun(): seq<Event> {
    [ SignUp(FirstUser),
      SaveQuestionEvent(None, "2 + 2?", 100, true),
      AddChoice(1, "4", true),
      SubmitAnswer(Some(1), Some(1)) ]
  }

  lemma FirstSignUp()
    ensures var db := Step(Empty(), FirstAnswerRun()[0]);
      1 in db.users && db.questions == map[] && db.choices == map[] && db.responses == map[]
  {
    var db0 := Empty();
    assert Serializers.FieldsValid(db0, FirstUser) by {
      forall field ensures Serializers.FieldOk(db0, FirstUser, field) {
      }
    }
  }

  lemma FirstQuestionAndChoice(db: Db)
    requires 1 in db.users && db.questions == map[] && db.choices == map[] && db.responses == map[]
    ensures var db' := Step(Step(db, SaveQuestionEvent(None, "2 + 2?", 100, true)), AddChoice(1, "4", true));
      && 1 in db'.users && db'.responses == map[]
      && db'.questions.Keys == {1} && db'.questions[1].isActive && db'.questions[1].correctResponders == {}
      && db'.choices == map[1 := Choice(1, "4", true)]
  {
  }

  lemma FirstSubmission(db: Db)
    requires 1 in db.users && db.responses == map[]
    requires db.questions.Keys == {1} && db.questions[1].isActive && db.questions[1].correctResponders == {}
    requires db.choices == map[1 := Choice(1, "4", true)]
    ensures var db' := Step(db, SubmitAnswer(Some(1), Some(1)));
      && db'.responses.Values == {UserResponse(1, 1, 1, true)}
      && 1 in db'.questions && db'.questions[1].correctResponders == {1}
  {
    assert ActiveQuestion(db.questions) == Some(1);
    var r := Views.Submit(db, Some(1), Some(1));
    assert r.1.Created?;
    var x: Id :| x !in db.responses && r.0.responses == db.responses[x := UserResponse(1, 1, 1, true)];
    assert r.0.responses == map[x := UserResponse(1, 1, 1, true)];
  }

  /** The last three events of the run, from any store where only user 1 has been created. */
  lemma FirstAnswerAfterSignUp(db: Db)
    requires 1 in db.users && db.questions == map[] && db.choices == map[] && db.responses == map[]
    ensures var db' := Run(db, FirstAnswerRun()[1..]);
      && db'.responses.Values == {UserResponse(1, 1, 1, true)}
      && 1 in db'.questions && db'.questions[1].correctResponders == {1}
  {
    var events := FirstAnswerRun()[1..];
    var db2 := Step(db, events[0]);
    var db3 := Step(db2, events[1]);
    FirstQuestionAndChoice(db);
    FirstSubmission(db3);
    assert Run(db, events) == Run(db2, events[1..]);
    assert Run(db2, events[1..]) == Run(db3, events[1..][1..]);
    assert events[1..][1..][1..] == [];
  }

  /** A non-empty run is its first step followed by the rest of the run. */
  lemma RunFirstStep(db: Db, events: seq<Event>)
    requires events != []
    ensures Run(db, events) == Run(Step(db, events[0]), events[1..])
  {
  }

  /** Runs from the empty store do reach accepted answers: this one records one correct response. */
  lemma FirstAnswerRecorded()
    ensures var db := Run(Empty(), FirstAnswerRun());
      && db.responses.Values == {UserResponse(1, 1, 1, true)}
      && 1 in db.questions && db.questions[1].correctResponders == {1}
  {
    FirstSignUp();
    FirstAnswerAfterSignUp(Step(Empty(), FirstAnswerRun()[0]));
    RunFirstStep(Empty(), FirstAnswerRun());
  }

  /** A sequence of submissions from stored users, applied in order. */
  function SubmitAll(db: Db, requests: seq<(Option<Id>, Option<Id>)>): (r: Db)
    requires forall i :: 0 <= i < |requests| && requests[i].0.Some? ==> requests[i].0.value in db.users
    ensures r.users == db.users
    ensures db.responses.Keys <= r.responses.Keys
    decreases |requests|
  {
    if requests == [] then
      db
    else
      var next := Views.Submit(db, requests[0].0, requests[0].1).0;
      SubmitAll(next, requests[1..])
  }

  /** Over any sequence of submissions, each (user, question) pair has at most one response. */
  lemma {:induction false} SubmitsKeepOneResponsePerPair(db: Db, requests: seq<(Option<Id>, Option<Id>)>)
    requires forall i :: 0 <= i < |requests| && requests[i].0.Some? ==> requests[i].0.value in db.users
    requires OneResponsePerPair(db.responses)
    ensures OneResponsePerPair(SubmitAll(db, requests).responses)
    decreases |requests|
  {
    if requests != [] {
      var (auth, choice) := requests[0];
      var r := Views.Submit(db, auth, choice);
      if r.1.Created? {
        var u, q, c := auth.value, ActiveQuestion(db.questions).value, choice.value;
        var x: Id :| x !in db.responses &&
          r.0.responses == db.responses[x := UserResponse(u, q, c, db.choices[c].isCorrect)];
        Views.RecordAnswerKeepsPairsUnique(db.responses, u, q, c, db.choices[c].isCorrect, x);
      }
      SubmitsKeepOneResponsePerPair(r.0, requests[1..]);
    }
  }
}
