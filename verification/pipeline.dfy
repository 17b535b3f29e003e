/**
 The four routes seen as one request handler over the course store: which
 status each request can produce, what a refused request leaves behind, how
 much a carried-out request changes, and the enrolment invariant kept across
 any sequence of requests.
 */
module Pipeline {
  import opened Courses
  import opened Students
  import opened Validation
  import opened CourseRoutes

  /** A request as routed: the method and path select the handler. */
  datatype Request =
    | CreateCourse(payload: Payload)
    | UpdateCourse(id: CourseId, payload: Payload)
    | DeleteCourse(id: CourseId)
    | EnrollIn(id: CourseId)

  /** A request together with the caller the authentication layer attached to it. */
  datatype Call = Call(caller: Caller, request: Request)

  /** The routes guarded by the admin role check (every one but enrolment). */
  predicate AdminOnly(req: Request) {
    !req.EnrollIn?
  }

  /** The statuses each route can answer with, apart from the 500 path. */
  function Answers(req: Request): set<Status> {
    match req
    case CreateCourse(_) => {Created, BadRequest, Forbidden}
    case UpdateCourse(_, _) => {Ok, Forbidden, NotFound}
    case DeleteCourse(_) => {Ok, Forbidden, NotFound}
    case EnrollIn(_) => {Ok, NotFound, BadRequest}
  }

  /** Every enrolment list in the store is free of duplicates. */
  ghost predicate StudentsDistinct(store: Store) {
    forall k :: k in store ==> Distinct(store[k].students)
  }

  /** `before` and `after` agree everywhere except possibly at key `k`. */
  ghost predicate OnlyAt(before: Store, after: Store, k: CourseId) {
    forall j :: j != k ==> (j in before <==> j in after) && (j in before ==> before[j] == after[j])
  }

  /**
   Whether the store after a request by a non-admin caller can have come
   from the store before it: same identities, same fields, and each
   enrolment list either kept or extended by that caller alone.
   */
  ghost predicate OnlyEnrolled(before: Store, after: Store, u: UserId) {
    && after.Keys == before.Keys
    && forall k :: k in before ==>
         && SameFields(before[k], after[k])
         && (after[k] == before[k] || after[k].students == before[k].students + [u])
  }

  /** Dispatches a request to its route. */
  function Handle(v: Validator, store: Store, caller: Caller, req: Request): (r: Step)
    ensures r.reply.status in Answers(req)
    ensures AdminOnly(req) && !IsAdmin(caller) ==> r.reply.status == Forbidden
    ensures !r.reply.status.IsSuccess() ==> r.store == store
    ensures r.reply.status.IsSuccess() && !req.CreateCourse? ==>
      && req.id in store
      && OnlyAt(store, r.store, req.id)
    ensures r.reply.status.IsSuccess() && req.CreateCourse? ==>
      && r.reply.body.Record?
      && r.reply.body.id !in store
      && r.store == store[r.reply.body.id := r.reply.body.course]
    ensures r.reply.body.Record? ==>
      r.reply.body.id in r.store && r.store[r.reply.body.id] == r.reply.body.course
    ensures StudentsDistinct(store) ==> StudentsDistinct(r.store)
    ensures !IsAdmin(caller) ==> OnlyEnrolled(store, r.store, caller.id)
  {
    match req
    case CreateCourse(p) => Create(v, store, caller, p)
    case UpdateCourse(id, p) => Update(store, caller, id, p)
    case DeleteCourse(id) => Delete(store, caller, id)
    case EnrollIn(id) => Enroll(store, caller, id)
  }

  /**
   After any sequence of requests starting from duplicate-free enrolment
   lists, no user is enrolled more than once in any course.
   */
  lemma EnrolledAtMostOnce(v: Validator, store: Store, calls: seq<Call>, k: CourseId, u: UserId)
    requires StudentsDistinct(store)
    requires k in Run(v, store, calls)
    ensures Occurrences(Run(v, store, calls)[k].students, u) <= 1
  {
    DistinctAtMostOnce(Run(v, store, calls)[k].students, u);
  }

  /** The store after handling `calls` in order, one at a time. */
  function Run(v: Validator, store: Store, calls: seq<Call>): (r: Store)
    ensures StudentsDistinct(store) ==> StudentsDistinct(r)
    ensures (forall c :: c in calls ==> !IsAdmin(c.caller)) ==> r.Keys == store.Keys
    decreases |calls|
  {
    if calls == [] then store
    else
      var next := Handle(v, store, calls[0].caller, calls[0].request).store;
      assert forall c :: c in calls[1..] ==> c in calls;
      Run(v, next, calls[1..])
  }
}
