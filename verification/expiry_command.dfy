/**
 * The soft-expiry management command of home/utils.py, `Command.handle`:
 * deactivate the expired active questions, and when no question is left
 * active, activate the earliest one that has not expired. Nothing is
 * deleted. The command reads the clock once; `now` is that reading.
 */
module ExpiryCommand {
  import opened Common
  import opened Store
  import opened Models

  /** `filter(is_active=True, expiry_date__lte=now).update(is_active=False)`. */
  function Expire(qs: map<Id, Question>, now: Timestamp): (r: map<Id, Question>)
    ensures r.Keys == qs.Keys
    ensures forall id :: id in qs ==> r[id] == qs[id].(isActive := qs[id].isActive && qs[id].expiry > now)
  {
    map id | id in qs :: if qs[id].isActive && qs[id].expiry <= now then qs[id].(isActive := false) else qs[id]
  }

  /** Some question is active and has not expired. */
  predicate HasLiveActive(qs: map<Id, Question>, now: Timestamp) {
    exists id :: id in qs && qs[id].isActive && qs[id].expiry > now
  }

  /** `Command.handle` at time `now`. */
  ghost function Handle(db: Db, now: Timestamp): (r: Db)
    ensures r == db.(questions := r.questions)
    ensures r.questions.Keys == db.questions.Keys
    ensures forall id :: id in db.questions ==>
      r.questions[id] == db.questions[id].(isActive := r.questions[id].isActive)
    ensures forall id :: id in r.questions && r.questions[id].isActive ==> r.questions[id].expiry > now
    ensures HasLiveActive(db.questions, now) ==> r.questions == Expire(db.questions, now)
    ensures !HasLiveActive(db.questions, now) && Unexpired(db.questions, now) != {} ==>
      exists n: Id :: IsEarliest(db.questions, Unexpired(db.questions, now), n) && ActiveIds(r.questions) == {n}
    ensures !HasLiveActive(db.questions, now) && Unexpired(db.questions, now) == {} ==>
      ActiveIds(r.questions) == {}
    ensures AtMostOneActive(db.questions) ==> AtMostOneActive(r.questions)
  {
    var expired := db.(questions := Expire(db.questions, now));
    if HasLiveActive(db.questions, now) then
      assert HasLiveActive(expired.questions, now);
      expired
    else
      assert ActiveIds(expired.questions) == {};
      var upcoming := Unexpired(db.questions, now);
      if upcoming == {} then
        expired
      else
        var next := Earliest(expired.questions, upcoming);
        assert IsEarliest(db.questions, upcoming, next);
        Activate(expired, next)
  }

  /** No question whose expiry has passed is active after the command, and none is deleted. */
  lemma HandleNeverActivatesExpired(db: Db, now: Timestamp, id: Id)
    requires id in db.questions && db.questions[id].expiry <= now
    ensures id in Handle(db, now).questions && !Handle(db, now).questions[id].isActive
  {
  }

  /** Running the command twice at the same time is the same as running it once. */
  lemma HandleIdempotent(db: Db, now: Timestamp)
    ensures Handle(Handle(db, now), now) == Handle(db, now)
  {
  }

  lemma HandlePreservesValid(db: Db, now: Timestamp)
    requires Valid(db)
    ensures Valid(Handle(db, now))
  {
  }
}
