/**
 * Shared vocabulary of the quiz backend model: optional values, results,
 * primary keys, timestamps, and the key the store hands out for a new row.
 */
module Common {

  /** A value that may be absent (Python's `None`). */
  datatype Option<+T> = None | Some(value: T) {
    function GetOr(default: T): T {
      match this
      case Some(v) => v
      case None => default
    }
  }

  /** The outcome of an operation that can be rejected. */
  datatype Result<+T, +E> = Ok(value: T) | Err(error: E)

  /** Primary keys of stored rows; the store's auto-increment keys start at 1. */
  type Id = n: int | 1 <= n witness 1

  /** A point on the store's clock, in whole seconds. */
  type Timestamp = int

  /** `m` is an upper bound of `s` that belongs to `s`. */
  predicate IsMax(s: set<Id>, m: Id) {
    m in s && forall k :: k in s ==> k <= m
  }

  /** `m` is a lower bound of `s` that belongs to `s`. */
  predicate IsMin(s: set<Id>, m: Id) {
    m in s && forall k :: k in s ==> m <= k
  }

  lemma {:induction false} MaxExists(s: set<Id>)
    requires s != {}
    ensures exists m :: IsMax(s, m)
  {
    var x :| x in s;
    if s == {x} {
      assert IsMax(s, x);
    } else {
      MaxExists(s - {x});
      var m :| IsMax(s - {x}, m);
      var top := if x <= m then m else x;
      forall k | k in s ensures k <= top {
        if k != x { assert k in s - {x}; }
      }
      assert IsMax(s, top);
    }
  }

  lemma {:induction false} MinExists(s: set<Id>)
    requires s != {}
    ensures exists m :: IsMin(s, m)
  {
    var x :| x in s;
    if s == {x} {
      assert IsMin(s, x);
    } else {
      MinExists(s - {x});
      var m :| IsMin(s - {x}, m);
      var bottom := if x <= m then x else m;
      forall k | k in s ensures bottom <= k {
        if k != x { assert k in s - {x}; }
      }
      assert IsMin(s, bottom);
    }
  }

  /** The largest key of a non-empty key set. */
  function MaxId(s: set<Id>): (m: Id)
    requires s != {}
    ensures m in s && forall k :: k in s ==> k <= m
  {
    MaxExists(s);
    var m :| IsMax(s, m);
    m
  }

  /** The smallest key of a non-empty key set. */
  function MinId(s: set<Id>): (m: Id)
    requires s != {}
    ensures m in s && forall k :: k in s ==> m <= k
  {
    MinExists(s);
    var m :| IsMin(s, m);
    m
  }

  /**
   * The key given to a new row: one more than every key in use, so it never
   * collides with a live row. Unlike a database sequence, it can hand out
   * again the key of a deleted row that had the largest key.
   */
  function FreshId(keys: set<Id>): (r: Id)
    ensures r !in keys
    ensures forall k :: k in keys ==> k < r
  {
    if keys == {} then 1 else MaxId(keys) + 1
  }
}
