# Quiz backend: question rotation and answer submission, in Dafny

This project models the domain core of a Django quiz backend (the `home`
application). Users register with a phone number and a one-time code. They
answer the single active trivia question once. The system records who
answered correctly, and a periodic job rotates which question is active as
expiry times pass. Users can also file support tickets that administrators
answer.

The database is an immutable value `Store.Db` with one finite map per table,
keyed by auto-increment primary keys. Every save hook, manager method, view,
serializer and rotation job is a pure function from one store to the next.
The model covers these modules:

- `Common`: `Option`, `Result`, primary keys, and the fresh-key rule: a new row gets one more than the largest key in use.
- `Store`: the entities (user, OTP record, question, choice, response, ticket, reply, contact info) and the active-question lookup. It also holds the integrity invariant `Valid`, which every modelled operation keeps (the Django admin's direct edits are outside it, see Left out):
  - at most one question is active;
  - choices and responses point to stored rows, and a response's choice belongs to its question;
  - each (user, question) pair has at most one response;
  - a question's correct responders are exactly the users with a correct response to it;
  - phone numbers are unique and non-empty;
  - replies point to replied tickets;
  - there is at most one contact-info row.
- `Decimal`: the decimal rendering of a natural number and its inverse. These are used for OTP codes.
- `Models`: `create_user`/`create_superuser`, `generate_otp`, `Question.save` (activating one question deactivates the others), adding a choice to a question, the on-delete cascade, `UserResponse.save`, tickets and replies, and the `ContactInfo` singleton.
- `Views`: answer submission, the active-question lookup, the correct-responders listing, and the login argument guard.
- `Serializers`: phone and OTP validation, sign-up, the response validator, and the public choice projection.
- `Scheduler`: the periodic job that deletes expired questions and activates the next one.
- `ExpiryCommand`: the management command that deactivates expired questions and activates the next one only when none is active.
- `Lifecycle`: any sequence of the operations that write to the store (saving a question, adding a choice, both rotation jobs and the corrected rotation job, answer submission, sign-up, tickets, replies, the contact-info save and issuing a code), with the invariant proved over every run.

A query's `first()` on an unordered queryset picks the smallest primary key, so
the active-question lookup is deterministic. `order_by('expiry_date').first()`
leaves ties to the database. The model therefore picks *some* question of
minimal expiry (`Store.Earliest`), and the rotations that use it are ghost
functions.

The two rotation jobs in the code differ. `home/utils.py:14-21` only
deactivates expired questions, and activates the next one only when none is
active. `home/apscheduler.py:7-14` deletes expired questions and activates the
earliest inactive one without that guard (see Findings). `Scheduler.Tick`
models the latter as written. `Scheduler.GuardedTick` adds the guard, and
`ExpiryCommand.Handle` models the former.

## Model

| member | source | states |
|---|---|---|
| Common.FreshId | home/models.py:12-14 | A new row's key is not in use and is larger than every key in use |
| Store.ActiveQuestion | home/views.py:99 | `filter(is_active=True).first()`: none exactly when no question is active; otherwise an active question with no smaller active key |
| Store.ActiveQuestionIsTheActiveOne | home/models.py:69-73 | When at most one question is active, the lookup returns exactly that question |
| Store.Earliest | home/apscheduler.py:11 | Some question of the pool whose expiry no other pool member undercuts |
| Store.Empty | home/models.py:59-161 | The empty store satisfies every integrity constraint of the schema |
| Decimal.DigitChar | home/models.py:30 | A digit renders as the character with that digit value |
| Decimal.ToDecimal | home/models.py:30 | The rendering of a number is a non-empty string of digits |
| Decimal.ValueOfToDecimal | home/models.py:30 | Reading back the rendering of a number gives the number |
| Decimal.DecimalLength | home/models.py:30 | A number in [10^k, 10^(k+1)) renders in exactly k+1 digits |
| Decimal.NoLeadingZero | home/models.py:30 | The rendering of a positive number does not start with '0' |
| Models.CreateUser | home/models.py:9-15 | Refused exactly when the phone is empty, or already registered (unique column); otherwise one fresh user with the given phone, credential and profile fields, and the staff flags only when explicitly true; no other row changes |
| Models.CreateSuperuser | home/models.py:17-20 | Same refusals as `create_user`; otherwise one fresh user with the given phone, credential and profile fields, both flags set unless the caller passed false explicitly, and no other row changed |
| Models.CreateUserPreservesValid | home/models.py:39 | Creating a user keeps phone numbers unique and the rest of the invariant |
| Models.GenerateOtp | home/models.py:29-32 | The phone's code becomes six digits with no leading zero whose value is the random draw in [100000, 999999]; the record is stamped with now; an existing record keeps its verified flag and a new one starts unverified; other phones' records are unchanged |
| Models.GenerateOtpPreservesValid | home/models.py:29-32 | Issuing a code keeps the invariant |
| Models.SaveQuestion | home/models.py:69-73 | Saving an active question leaves it the only active one; saving an inactive one leaves the other flags alone; other questions change only in their flag; the responders of an existing question are kept |
| Models.SaveQuestionPreservesValid | home/models.py:69-73 | Saving a question keeps at most one question active and the rest of the invariant |
| Models.Activate | home/apscheduler.py:13-14 | Activating a stored question makes it the only active one and changes nothing else |
| Models.ActivatePreservesValid | home/utils.py:20-21 | Activating a stored question keeps the invariant |
| Models.DeleteQuestions | home/models.py:77-88 | Deleting questions also deletes their choices and every response to them or selecting one of their choices; other rows are unchanged |
| Models.DeleteQuestionsPreservesValid | home/models.py:77-88 | The cascade keeps the invariant, including the responder relation of surviving questions |
| Models.AddCorrectResponder | home/models.py:94 | The user joins the question's responders; nothing else changes; adding a present user leaves the store as it was |
| Models.AddCorrectResponderIdempotent | home/views.py:117-118 | Adding a responder twice is the same as adding once |
| Models.CreateChoice | home/models.py:76-79 | Refused exactly when the question key names no stored question; otherwise one choice of that question, with the given text and correctness, under a fresh key, and no other row changes |
| Models.CreateChoicePreservesValid | home/models.py:76-77 | Adding a choice to a stored question keeps the invariant |
| Models.SaveResponse | home/models.py:91-95 | A new response under a fresh key; when the choice is correct the response is marked correct and the user joins the responders, otherwise the questions are unchanged |
| Models.CreateTicket | home/serializers.py:127-129 | A new ticket of the requesting user under a fresh key starts pending; other tickets are unchanged |
| Models.CreateTicketPreservesValid | home/models.py:101-112 | Creating a ticket keeps the invariant |
| Models.SaveReply | home/models.py:135-139 | The reply is stored and its ticket becomes replied with no other change; a ticket already replied is not written again |
| Models.SaveReplyPreservesValid | home/models.py:122-139 | Replying keeps the invariant: every reply points to a replied ticket |
| Models.SaveContactInfo | home/models.py:157-161 | As written: refused exactly when the instance has no key and a row exists |
| Models.ContactSingletonBypass | home/models.py:159 | A save with an explicit unused key passes the guard and leaves two contact rows |
| Models.SaveContactInfoGuarded | home/models.py:157-161 | As intended: refused exactly when the save would insert while a row exists; keeps at most one row; agrees with the code whenever the key is absent or stored |
| Models.SaveContactInfoGuardedPreservesValid | home/models.py:142-161 | The guarded save keeps the invariant |
| Views.Submit | home/views.py:93-123 | An unauthenticated request is refused before any read or write (the view's own branch answers 401); no active question, a repeat answer, or a choice not of the active question gives 400, in that order, each exactly when its condition holds and earlier ones do not, and then nothing changes; otherwise 201 with the choice's correctness, exactly one new response, and the user among the active question's responders exactly when the choice is correct |
| Views.RecordAnswerPreservesValid | home/views.py:110-118 | Writing a response and the matching responder update together keep the invariant |
| Views.RecordAnswerKeepsPairsUnique | home/views.py:103-115 | Inserting a response for a pair that has none keeps one response per pair |
| Views.RecordAnswerResponders | home/views.py:117-118 | After the write, a user is a responder of a question exactly when the user has a correct response to it |
| Views.SubmitPreservesValid | home/views.py:93-123 | Every submission, accepted or refused, keeps the invariant |
| Views.SubmitTwiceRejected | home/views.py:103-104 | After an accepted answer, the same user's next submission is refused as a duplicate and changes nothing |
| Views.ActiveQuestionObject | home/views.py:71-72 | None exactly when no question is active; otherwise an active question, and the only one when at most one is active |
| Views.CorrectResponders | home/views.py:132-149 | 400 exactly when no question is active; otherwise the active question's stored responders, each projected to phone, names, province and gender |
| Views.CorrectRespondersAreCorrectAnswerers | home/views.py:132-149 | In a consistent store the listing is exactly the users with a correct response to the active question |
| Views.Login | home/views.py:48-63 | 400 exactly when the phone or the password is missing or empty; otherwise 401 exactly when authentication fails, and 200 with the authenticated user |
| Views.LoginGuardPrecedesAuthentication | home/views.py:52-55 | Without both credentials the reply is 400 whatever the authentication back end answers |
| Serializers.ValidatePhoneNumber | home/serializers.py:8-12 | Refused exactly when a user already has the phone number; otherwise the number is returned |
| Serializers.VerifyOtp | home/serializers.py:19-31 | Wrong code exactly when no code was issued to the phone or it differs; expired exactly when it matches and more than five minutes have passed; otherwise the data is returned unchanged |
| Serializers.IssuedOtpVerifiesWithinWindow | home/serializers.py:28-29 | A freshly issued code is accepted until five minutes after issue, inclusive, and refused as expired afterwards |
| Serializers.IssuedOtpRejectsOtherCodes | home/serializers.py:24-25 | Any other code is refused for that phone |
| Serializers.ValidateFields | home/serializers.py:34-55 | Field validation: refused exactly when some field is invalid (blank, too long, a registered phone, a gender other than M or F), reporting exactly the invalid fields |
| Serializers.ValidateSignUp | home/serializers.py:57-60 | Refused exactly when the password and its confirmation differ |
| Serializers.CreateFromSignUp | home/serializers.py:62-73 | The user is created with the phone, the password as credential and the profile fields, never as staff, and no other row changes; refused as `create_user` refuses |
| Serializers.SignUp | home/serializers.py:34-73 | Accepted exactly when every field is valid and the passwords match; invalid fields are reported before a mismatch; an accepted sign-up creates one non-staff user with the given fields and changes nothing else |
| Serializers.PhoneCheckAgreesWithSignUp | home/serializers.py:8-12 | A phone the OTP step refuses is reported as an invalid phone at sign-up; a non-empty phone it accepts does not stop user creation |
| Serializers.ValidateResponse | home/serializers.py:90-109 | Unknown keys first, flagging exactly which of the question and choice is unknown (both are reported together); then a duplicate answer; then a choice of another question; each exactly when its condition holds and the earlier ones do not |
| Serializers.ValidatorAgreesWithSubmit | home/serializers.py:96-109 | For the active question, the serializer accepts exactly the answers the submission view accepts |
| Serializers.ChoicesPayload | home/serializers.py:76-79 | The payload lists exactly the question's choices, each with its id and text |
| Serializers.PayloadHidesCorrectness | home/serializers.py:79 | Changing which choices are correct does not change the payload |
| Scheduler.Purge | home/apscheduler.py:8-9 | The questions expiring at or before now are deleted with their cascade; the survivors and the idle survivors are as expected |
| Scheduler.Tick | home/apscheduler.py:7-14 | As written: only unexpired questions survive; when an inactive survivor exists, one of earliest expiry becomes the only active question, whatever was active; otherwise no flag changes |
| Scheduler.TickPreservesValid | home/apscheduler.py:7-14 | A tick keeps the invariant |
| Scheduler.TickCascades | home/apscheduler.py:8-9 | After a tick, the choices are exactly those of surviving questions, and every response refers to a survivor |
| Scheduler.TickDemotesUnexpiredActive | home/apscheduler.py:11-14 | While an inactive unexpired question waits, a tick demotes the active question even though it has not expired |
| Scheduler.TickActivatesSoleIdle | home/apscheduler.py:11-14 | When exactly one surviving question is inactive, the tick makes it the only active one |
| Scheduler.TickOscillates | home/apscheduler.py:11-14 | Two unexpired questions swap the active flag on every tick |
| Scheduler.GuardedTick | home/apscheduler.py:7-14 | As intended: with an unexpired active question, the tick only deletes; with none, one survivor of earliest expiry becomes the only active question |
| Scheduler.PurgeNothingExpired | home/apscheduler.py:8-9 | With nothing expired, the deletion step changes nothing |
| Scheduler.GuardedTickIdempotent | home/apscheduler.py:7-14 | Ticking the guarded job twice at the same time is the same as ticking once |
| Scheduler.GuardedTickAgreesWhenNothingActive | home/apscheduler.py:11-14 | When no unexpired question is active, the guarded tick and the tick as written agree |
| Scheduler.GuardedTickPreservesValid | home/apscheduler.py:7-14 | The guarded tick keeps the invariant |
| ExpiryCommand.Expire | home/utils.py:14 | Exactly the active questions whose expiry has passed are deactivated; nothing else changes |
| ExpiryCommand.Handle | home/utils.py:10-21 | Nothing is deleted; no expired question stays active; with an unexpired active question only the expiry step runs; otherwise one unexpired question of earliest expiry becomes the only active one, or none when none remains |
| ExpiryCommand.HandleNeverActivatesExpired | home/utils.py:14-18 | A question whose expiry has passed is kept and is inactive after the command |
| ExpiryCommand.HandleIdempotent | home/utils.py:10-21 | Running the command twice at the same time is the same as running it once |
| ExpiryCommand.HandlePreservesValid | home/utils.py:10-21 | The command keeps the invariant |
| Lifecycle.StepPreservesValid | home/models.py:9-161 | Every single operation keeps the invariant |
| Lifecycle.RunPreservesValid | home/models.py:59-95 | Every sequence of operations from a consistent store ends in a consistent store |
| Lifecycle.RunFromEmpty | home/views.py:99-118 | From an empty store, after any run, at most one question is active, no user has two responses to one question, and there is at most one contact row |
| Lifecycle.FirstAnswerRecorded | home/views.py:99-118 | From an empty store, a sign-up, an active question, a correct choice for it and a submission record exactly one correct response and make the user its question's only correct responder, so the run conclusions are not vacuous |
| Lifecycle.SubmitAll | home/views.py:110-115 | A sequence of submissions changes no user and deletes no response |
| Lifecycle.SubmitsKeepOneResponsePerPair | home/views.py:103-115 | Over any sequence of submissions, each user has at most one response per question |

## Left out

- The timer that runs the rotation job every minute and the scheduler job store (`home/apscheduler.py:17-27`, app start-up): a tick is one call with the clock reading as a parameter.
- Concurrency: requests and ticks are applied one at a time. Interleavings inside one operation, such as two submissions racing past the duplicate check, are not modelled.
- Clocks and randomness become parameters (`now`, the OTP `draw`).
- Authentication and tokens: `authenticate`, password hashing inside `set_password`, and `Token.objects.get_or_create` are outside the model. `Views.Login` takes the authentication back end as a function, and a set password is recorded as a `PasswordSet` credential.
- OTP delivery and the views that create OTP records are not part of this model. `Models.GenerateOtp` models the record update only.
- `QuestionSerializer` lists a `next_question` field that the `Question` model does not define, and `AboutUsSerializer` names an `AboutUs` model that is not defined. Neither has behaviour to model.
- Field lengths (`max_length`) are left out except in sign-up field validation (`Serializers.FieldOk`). The display strings of gender and ticket status and the `__str__` methods are left out.
- Ticket and reply timestamps (`created_at`, `updated_at`) are left out. `Models.CreateTicket` and `Models.SaveReply` keep only the fields with behaviour.
- Models.SaveResponse: models the insert of a new response, which is how `UserResponse` rows are written; re-saving an existing response is not modelled.
- Views.CorrectResponders: returns a map keyed by user rather than a list in database order, because the order of a many-to-many listing is not fixed by the code.
- Views.Submit: the authenticated user is required to be a stored user, because the authentication layer only yields stored users.
- Views.Submit: a posted `selected_choice_id` that is not an integer makes the choice lookup raise, which gives HTTP 500 before any write (`home/views.py:106`). The choice is an optional key, so that error path is not modelled.
- Common.FreshId: a new row gets one more than the largest key in use. The database's auto-increment never reuses a deleted row's key, but this rule does once the row with the largest key is deleted. No proved property depends on key values beyond their being unused.
- Serializers.ValidateFields: a missing field is modelled as an empty string and reported as invalid. The whitespace trimming that the form fields apply before validating is not modelled, so a field of only spaces counts as non-blank here.
- Serializers.SignUp: a missing field is modelled as an empty string, and both are refused. The whitespace trimming that the form fields apply before validating is not modelled.
- Lifecycle.Step: a contact-info save goes through the corrected `Models.SaveContactInfoGuarded` (see Findings). With the save as written, the single-row part of the invariant fails (`Models.ContactSingletonBypass`).
- Lifecycle.StepPreservesValid: proved for the corrected contact-info save. The save as written changes only the contact table (`Models.SaveContactInfo`), so the only part of the invariant it can break is the single contact row.
- Lifecycle.RunPreservesValid: runs use the corrected contact-info save. With the save at `home/models.py:157-161` the single-row part can fail.
- Lifecycle.RunFromEmpty: the at-most-one-contact-row conclusion holds for the corrected save only. The other two conclusions do not depend on it.
- Lifecycle.Step: the Django admin is not an event. Its question form (`home/admin.py:44-48`) edits `correct_responders` directly, and its choice inline (`home/admin.py:39-41`) can also flip `is_correct` or delete a choice. Deleting a choice cascades to its responses (`home/models.py:88`) but leaves the users among the question's correct responders. So two clauses of `Store.Valid` do not survive admin edits: the responder clause (`RespondersRecorded`), and the clause of `ResponsesWellFormed` that a response's correctness equals its choice's; only the choice creation the inline performs is modelled, as `Models.CreateChoice`.
- Views.Submit: the refusal of an unauthenticated request comes first from the view's `permission_classes = [IsAuthenticated]` (`home/views.py:76`), so the view's own 401 branch (`home/views.py:94-95`) is not reached. The status then comes from the configured authentication classes (401 when the first sends a `WWW-Authenticate` header, 403 otherwise), and the settings are not part of this model. The model keeps the branch's 401 as the status of `Unauthenticated`.
- Serializers.VerifyOtp: the submission is the cleaned data. The trimming, blank and length checks of the serializer's fields (`home/serializers.py:16-17`) run before `validate` and are not modelled.
- Lifecycle.Step: events that the system cannot produce (a ticket of an unknown user, a reply to a missing ticket, a draw outside the generator's range, a submission by an unknown user) are treated as changing nothing.

## Findings

| source | as written | input that shows it | evidently intended | confidence | as-written member | corrected member |
|---|---|---|---|---|---|---|
| home/apscheduler.py:11-14 | After deleting expired questions, the job activates the earliest inactive question even when an unexpired question is already active, and saving it deactivates that question | Question 1 active, expiry 10; question 2 inactive, expiry 20; ticks at time 0 make 2 active, then 1, then 2 again | Activate the next question only when no question is active, as `home/utils.py:17` does | medium, not executed | Scheduler.TickOscillates | Scheduler.GuardedTick |
| home/models.py:159 | The singleton guard refuses only instances without a primary key | One contact row with key 1; saving a new instance with explicit key 2 inserts a second row | Refuse any save that would insert a row while one exists | medium, not executed | Models.ContactSingletonBypass | Models.SaveContactInfoGuarded |
