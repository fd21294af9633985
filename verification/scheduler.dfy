/**
 * The periodic rotation job of home/apscheduler.py, `check_expired_questions`:
 * delete every expired question, then activate the earliest-expiring
 * inactive one. The timer that runs it once a minute is not modelled; a tick
 * is one call at time `now`.
 *
 * The job activates a question even while an unexpired one is active, so two
 * unexpired questions swap places on every tick. `Tick` models the job as
 * written and `TickOscillates` exhibits the swap; `GuardedTick` adds the
 * missing "only when nothing is active" guard and is proved stable.
 */
module Scheduler {
  import opened Common
  import opened Store
  import opened Models

  /** `Question.objects.filter(expiry_date__lte=now)`: the boundary counts as expired. */
  function ExpiredIds(qs: map<Id, Question>, now: Timestamp): set<Id> {
    set id | id in qs && qs[id].expiry <= now
  }

  /** The inactive questions a tick leaves in place. */
  function IdleSurvivors(qs: map<Id, Question>, now: Timestamp): set<Id> {
    set id | id in qs && qs[id].expiry > now && !qs[id].isActive
  }

  /** The first step of a tick: delete the expired questions, with their cascade. */
  function Purge(db: Db, now: Timestamp): (r: Db)
    ensures r == DeleteQuestions(db, ExpiredIds(db.questions, now))
    ensures r.questions.Keys == Unexpired(db.questions, now)
    ensures forall id :: id in r.questions ==> r.questions[id] == db.questions[id]
    ensures (set id | id in r.questions && !r.questions[id].isActive) == IdleSurvivors(db.questions, now)
  {
    var r := DeleteQuestions(db, ExpiredIds(db.questions, now));
    assert r.questions.Keys == Unexpired(db.questions, now);
    r
  }

  /** `check_expired_questions` as written. */
  ghost function Tick(db: Db, now: Timestamp): (r: Db)
    ensures r.questions.Keys == Unexpired(db.questions, now)
    ensures forall id :: id in r.questions ==> r.questions[id].expiry > now
    ensures forall id :: id in r.questions ==>
      r.questions[id] == db.questions[id].(isActive := r.questions[id].isActive)
    ensures r == Purge(db, now).(questions := r.questions)
    ensures IdleSurvivors(db.questions, now) != {} ==>
      exists n: Id :: IsEarliest(db.questions, IdleSurvivors(db.questions, now), n) && ActiveIds(r.questions) == {n}
    ensures IdleSurvivors(db.questions, now) == {} ==>
      forall id :: id in r.questions ==> r.questions[id].isActive == db.questions[id].isActive
    ensures AtMostOneActive(db.questions) ==> AtMostOneActive(r.questions)
  {
    var purged := Purge(db, now);
    var idle := IdleSurvivors(db.questions, now);
    if idle == {} then
      purged
    else
      var next := Earliest(purged.questions, idle);
      assert IsEarliest(db.questions, idle, next);
      Activate(purged, next)
  }

  /** A tick keeps the store's integrity invariant. */
  lemma TickPreservesValid(db: Db, now: Timestamp)
    requires Valid(db)
    ensures Valid(Tick(db, now))
  {
    var purged := Purge(db, now);
    DeleteQuestionsPreservesValid(db, ExpiredIds(db.questions, now));
    var idle := IdleSurvivors(db.questions, now);
    if idle != {} {
      ActivatePreservesValid(purged, Earliest(purged.questions, idle));
    }
  }

  /** Deleting a question takes its choices and the responses to it along. */
  lemma TickCascades(db: Db, now: Timestamp)
    requires Valid(db)
    ensures forall c :: c in Tick(db, now).choices <==>
      c in db.choices && db.choices[c].question in Unexpired(db.questions, now)
    ensures forall x :: x in Tick(db, now).responses ==>
      x in db.responses && db.responses[x].question in Unexpired(db.questions, now)
  {
  }

  /**
   * While some unexpired question waits inactive, a tick demotes the
   * active question even though it has not expired.
   */
  lemma TickDemotesUnexpiredActive(db: Db, now: Timestamp, a: Id)
    requires a in db.questions && db.questions[a].isActive && db.questions[a].expiry > now
    requires IdleSurvivors(db.questions, now) != {}
    ensures a in Tick(db, now).questions && !Tick(db, now).questions[a].isActive
  {
  }

  /** Two unexpired questions, the earlier one active: a store whose ticks swap them back and forth. */
  function TwoQuestions(): Db {
    Empty().(questions := map[1 := Question("first", 10, true, {}), 2 := Question("second", 20, false, {})])
  }

  /** When exactly one unexpired question is inactive, the tick makes it the only active one. */
  lemma TickActivatesSoleIdle(db: Db, now: Timestamp, n: Id)
    requires IdleSurvivors(db.questions, now) == {n}
    ensures ActiveIds(Tick(db, now).questions) == {n}
  {
  }

  /** The swap: one tick activates question 2, the next one question 1 again. */
  lemma TickOscillates()
    ensures var once := Tick(TwoQuestions(), 0);
      var twice := Tick(once, 0);
      && ActiveIds(once.questions) == {2}
      && ActiveIds(twice.questions) == {1}
  {
    var db := TwoQuestions();
    assert IdleSurvivors(db.questions, 0) == {2};
    TickActivatesSoleIdle(db, 0, 2);
    var once := Tick(db, 0);
    assert once.questions.Keys == {1, 2} by {
      assert Unexpired(db.questions, 0) == {1, 2};
    }
    assert 1 !in ActiveIds(once.questions);
    assert IdleSurvivors(once.questions, 0) == {1};
    TickActivatesSoleIdle(once, 0, 1);
  }

  /**
   * The tick with the guard the soft-expiry command has: after deleting the
   * expired questions, the earliest remaining one is activated only when no
   * question is active.
   */
  ghost function GuardedTick(db: Db, now: Timestamp): (r: Db)
    ensures r.questions.Keys == Unexpired(db.questions, now)
    ensures forall id :: id in r.questions ==> r.questions[id].expiry > now
    ensures forall id :: id in r.questions ==>
      r.questions[id] == db.questions[id].(isActive := r.questions[id].isActive)
    ensures r == Purge(db, now).(questions := r.questions)
    ensures forall a :: a in db.questions && db.questions[a].isActive && db.questions[a].expiry > now ==>
      r.questions == Purge(db, now).questions
    ensures ((forall a :: a in Unexpired(db.questions, now) ==> !db.questions[a].isActive) &&
             Unexpired(db.questions, now) != {}) ==>
      exists n: Id :: IsEarliest(db.questions, Unexpired(db.questions, now), n) && ActiveIds(r.questions) == {n}
    ensures AtMostOneActive(db.questions) ==> AtMostOneActive(r.questions)
  {
    var purged := Purge(db, now);
    if ActiveIds(purged.questions) != {} then
      purged
    else
      var idle := IdleSurvivors(db.questions, now);
      assert idle == Unexpired(db.questions, now) by {
        forall id | id in Unexpired(db.questions, now) ensures id in idle {
          assert id in purged.questions && id !in ActiveIds(purged.questions);
        }
      }
      if idle == {} then
        purged
      else
        var next := Earliest(purged.questions, idle);
        assert IsEarliest(db.questions, idle, next);
        Activate(purged, next)
  }

  /** With nothing expired, the purge step deletes nothing. */
  lemma PurgeNothingExpired(db: Db, now: Timestamp)
    requires forall id :: id in db.questions ==> db.questions[id].expiry > now
    ensures Purge(db, now) == db
  {
  }

  /** The guarded tick keeps an unexpired active question in place: ticking again changes nothing. */
  lemma GuardedTickIdempotent(db: Db, now: Timestamp)
    ensures GuardedTick(GuardedTick(db, now), now) == GuardedTick(db, now)
  {
    var once := GuardedTick(db, now);
    PurgeNothingExpired(once, now);
    if ActiveIds(once.questions) == {} {
      forall a | a in Unexpired(db.questions, now) ensures !db.questions[a].isActive {
        assert a !in ActiveIds(once.questions);
      }
    } else {
      var a :| a in ActiveIds(once.questions);
      assert a in once.questions && once.questions[a].isActive && once.questions[a].expiry > now;
    }
  }

  /** Where the guard does not apply, the guarded tick is the tick as written. */
  lemma GuardedTickAgreesWhenNothingActive(db: Db, now: Timestamp)
    requires forall a :: a in Unexpired(db.questions, now) ==> !db.questions[a].isActive
    ensures GuardedTick(db, now) == Tick(db, now)
  {
  }

  lemma GuardedTickPreservesValid(db: Db, now: Timestamp)
    requires Valid(db)
    ensures Valid(GuardedTick(db, now))
  {
    var purged := Purge(db, now);
    DeleteQuestionsPreservesValid(db, ExpiredIds(db.questions, now));
    var idle := IdleSurvivors(db.questions, now);
    if ActiveIds(purged.questions) == {} && idle != {} {
      ActivatePreservesValid(purged, Earliest(purged.questions, idle));
    }
  }
}
