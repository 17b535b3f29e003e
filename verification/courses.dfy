/**
 The data the course routes work on: a course record, the caller attached to
 a request by the authentication layer, the request body, and the store of
 courses keyed by identity.
 */
module Courses {

  /** A body field: either missing from the request or present with a value. */
  datatype Option<+T> = None | Some(value: T) {

    /** The field's value when present, otherwise the fallback `keep`. */
    function GetOr(keep: T): T {
      if Some? then value else keep
    }
  }

  /** Identity of a stored course, assigned by the persistence layer on creation. */
  type CourseId = nat

  /** Identity of an authenticated user, as found in `req.user._id`. */
  type UserId = nat

  /**
   A value found in a JSON request body. The route code stores whatever the
   body carries, so a course field is a `Value`, not a fixed type.
   */
  datatype Value = Text(text: string) | Number(number: real) | Flag(flag: bool) | Null

  /** The three course fields a request body may carry. */
  datatype Field = Title | Description | Price

  /** A stored course: its three fields and the users enrolled in it, in enrolment order. */
  datatype Course = Course(title: Value, description: Value, price: Value, students: seq<UserId>) {

    /** The value of one of the three fields. */
    function Get(f: Field): Value {
      match f
      case Title => title
      case Description => description
      case Price => price
    }
  }

  /** Two courses agree on all three fields (their enrolment lists may differ). */
  predicate SameFields(a: Course, b: Course) {
    forall f :: a.Get(f) == b.Get(f)
  }

  /** A request body restricted to the three course fields, each of which may be absent. */
  datatype Payload = Payload(title: Option<Value>, description: Option<Value>, price: Option<Value>) {

    /** The body's entry for one field. */
    function Get(f: Field): Option<Value> {
      match f
      case Title => title
      case Description => description
      case Price => price
    }
  }

  /** The body that carries no field at all. */
  const EmptyPayload := Payload(None, None, None)

  /** The caller of a request: its identity and its role string. */
  datatype Caller = Caller(id: UserId, role: string)

  /** The only role the create, update and delete routes admit. */
  predicate IsAdmin(c: Caller) {
    c.role == "admin"
  }

  /** The persisted course collection. */
  type Store = map<CourseId, Course>

  /** The identities in `ids` that are at least `n`. */
  ghost function AtOrAbove(ids: set<CourseId>, n: CourseId): set<CourseId> {
    set k | k in ids && k >= n
  }

  /** The least identity not below `n` that `ids` does not already use. */
  function FreshFrom(ids: set<CourseId>, n: CourseId): (r: CourseId)
    ensures r >= n && r !in ids
    ensures forall k :: n <= k < r ==> k in ids
    decreases AtOrAbove(ids, n)
  {
    if n !in ids then n
    else
      assert n in AtOrAbove(ids, n) && n !in AtOrAbove(ids, n + 1);
      FreshFrom(ids, n + 1)
  }

  /**
   The identity a newly saved course receives. The document store invents a
   new identity; the model takes the least one not already in use.
   */
  function FreshId(store: Store): (id: CourseId)
    ensures id !in store
    ensures forall k :: 0 <= k < id ==> k in store
  {
    FreshFrom(store.Keys, 0)
  }
}
