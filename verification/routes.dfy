/**
 The four course routes, each a pure function from the store, the caller and
 the request to a reply and the store after the request. Each runs its guards
 in the order the route does and performs at most one write.
 */
module CourseRoutes {
  import opened Courses
  import opened Students
  import opened Validation

  /** The HTTP statuses the routes answer with (the 500 path is not modelled). */
  datatype Status = Created | Ok | BadRequest | Forbidden | NotFound {

    /** The numeric HTTP status code; exactly the carried-out requests get a 2xx code. */
    function Code(): (code: int)
      ensures IsSuccess() <==> 200 <= code < 300
    {
      match this
      case Created => 201
      case Ok => 200
      case BadRequest => 400
      case Forbidden => 403
      case NotFound => 404
    }

    /** A 2xx status: the request was carried out. */
    predicate IsSuccess() {
      Created? || Ok?
    }
  }

  /**
   What a reply carries besides its message text: nothing, the course
   record that was written, or the fields that failed validation.
   */
  datatype Body = Message | Record(id: CourseId, course: Course) | Invalid(fields: seq<Field>)

  datatype Reply = Reply(status: Status, body: Body)

  /** The reply to one request and the store after it. */
  datatype Step = Step(reply: Reply, store: Store)

  /** A request turned away: the given status, no record, store as it was. */
  function Reject(status: Status, store: Store): Step {
    Step(Reply(status, Message), store)
  }

  /** The course a valid create body describes: its three fields and nobody enrolled. */
  function NewCourse(p: Payload): (c: Course)
    requires p.title.Some? && p.description.Some? && p.price.Some?
    ensures forall f :: Some(c.Get(f)) == p.Get(f)
    ensures c.students == []
  {
    Course(p.title.value, p.description.value, p.price.value, [])
  }

  /**
   POST / : admin only; then every field rule; then one new record under an
   identity the store did not use before.
   */
  function Create(v: Validator, store: Store, caller: Caller, p: Payload): (r: Step)
    ensures !IsAdmin(caller) ==> r.reply.status == Forbidden && r.store == store
    ensures IsAdmin(caller) && !Valid(v, p) ==>
      && r.reply.status == BadRequest && r.store == store
      && r.reply.body.Invalid?
      && (forall f :: f in r.reply.body.fields <==> !Passes(v, p, f))
    ensures IsAdmin(caller) && Valid(v, p) ==>
      && r.reply.status == Created
      && r.reply.body.Record?
      && r.reply.body.id !in store
      && r.store == store[r.reply.body.id := r.reply.body.course]
      && r.reply.body.course.students == []
      && (forall f :: Some(r.reply.body.course.Get(f)) == p.Get(f))
  {
    if !IsAdmin(caller) then Reject(Forbidden, store)
    else
      var errs := Errors(v, p);
      if errs != [] then Step(Reply(BadRequest, Invalid(errs)), store)
      else
        assert Passes(v, p, Title) && Passes(v, p, Description) && Passes(v, p, Price);
        var id, c := FreshId(store), NewCourse(p);
        Step(Reply(Created, Record(id, c)), store[id := c])
  }

  /**
   The record after `course.set(body)`: each field the body carries is
   overwritten, whatever its value; each field it lacks is kept; the
   enrolment list is never touched.
   */
  function Merge(c: Course, p: Payload): (m: Course)
    ensures forall f :: p.Get(f).Some? ==> m.Get(f) == p.Get(f).value
    ensures forall f :: p.Get(f).None? ==> m.Get(f) == c.Get(f)
    ensures m.students == c.students
  {
    Course(p.title.GetOr(c.title), p.description.GetOr(c.description), p.price.GetOr(c.price), c.students)
  }

  /** The body whose fields are those of `q` where it has them and those of `p` elsewhere. */
  function Overlay(p: Payload, q: Payload): (o: Payload)
    ensures forall f :: o.Get(f) == if q.Get(f).Some? then q.Get(f) else p.Get(f)
  {
    Payload(
      if q.title.Some? then q.title else p.title,
      if q.description.Some? then q.description else p.description,
      if q.price.Some? then q.price else p.price)
  }

  /** A body with no fields leaves the record as it was. */
  lemma MergeNothing(c: Course)
    ensures Merge(c, EmptyPayload) == c
  {
  }

  /** Two successive merges are one merge of the overlaid bodies (last write wins per field). */
  lemma MergeCompose(c: Course, p: Payload, q: Payload)
    ensures Merge(Merge(c, p), q) == Merge(c, Overlay(p, q))
  {
  }

  /** Merging the same body twice is merging it once. */
  lemma MergeIdempotent(c: Course, p: Payload)
    ensures Merge(Merge(c, p), p) == Merge(c, p)
  {
  }

  /**
   A body carrying every field replaces all three: the record becomes the
   one create would have built from that body, with the enrolment list kept.
   */
  lemma MergeFull(c: Course, p: Payload)
    requires p.title.Some? && p.description.Some? && p.price.Some?
    ensures Merge(c, p) == NewCourse(p).(students := c.students)
  {
  }

  /** PUT /:id : admin only; then the record must exist; then a shallow merge, unvalidated. */
  function Update(store: Store, caller: Caller, id: CourseId, p: Payload): (r: Step)
    ensures !IsAdmin(caller) ==> r.reply.status == Forbidden && r.store == store
    ensures IsAdmin(caller) && id !in store ==> r.reply.status == NotFound && r.store == store
    ensures IsAdmin(caller) && id in store ==>
      && r.reply == Reply(Ok, Record(id, Merge(store[id], p)))
      && r.store.Keys == store.Keys
      && r.store[id] == Merge(store[id], p)
      && (forall k :: k in store && k != id ==> r.store[k] == store[k])
  {
    if !IsAdmin(caller) then Reject(Forbidden, store)
    else if id !in store then Reject(NotFound, store)
    else
      var c := Merge(store[id], p);
      Step(Reply(Ok, Record(id, c)), store[id := c])
  }

  /** DELETE /:id : admin only; then the record must exist; then it is removed. */
  function Delete(store: Store, caller: Caller, id: CourseId): (r: Step)
    ensures !IsAdmin(caller) ==> r.reply.status == Forbidden && r.store == store
    ensures IsAdmin(caller) && id !in store ==> r.reply.status == NotFound && r.store == store
    ensures IsAdmin(caller) && id in store ==>
      && r.reply == Reply(Ok, Message)
      && r.store.Keys == store.Keys - {id}
      && |r.store| == |store| - 1
      && (forall k :: k in r.store ==> r.store[k] == store[k])
  {
    if !IsAdmin(caller) then Reject(Forbidden, store)
    else if id !in store then Reject(NotFound, store)
    else
      var rest := store - {id};
      assert rest.Keys == store.Keys - {id};
      Step(Reply(Ok, Message), rest)
  }

  /**
   POST /:id/enroll : any caller; the course must exist; a caller already
   enrolled is refused; otherwise the caller is appended to the list.
   */
  function Enroll(store: Store, caller: Caller, id: CourseId): (r: Step)
    ensures id !in store ==> r.reply.status == NotFound && r.store == store
    ensures id in store && caller.id in store[id].students ==>
      r.reply.status == BadRequest && r.store == store
    ensures id in store && caller.id !in store[id].students ==>
      && r.store.Keys == store.Keys
      && r.reply == Reply(Ok, Record(id, r.store[id]))
      && (forall k :: k in store && k != id ==> r.store[k] == store[k])
      && SameFields(store[id], r.store[id])
      && var before, after := store[id].students, r.store[id].students;
      && |after| == |before| + 1
      && after[..|before|] == before
      && after[|before|] == caller.id
      && Occurrences(after, caller.id) == 1
      && (Distinct(before) ==> Distinct(after))
  {
    if id !in store then Reject(NotFound, store)
    else
      var before := store[id];
      if caller.id in before.students then Reject(BadRequest, store)
      else
        var after := before.(students := before.students + [caller.id]);
        OccurrencesAppend(before.students, caller.id, caller.id);
        OccurrencesPositive(before.students, caller.id);
        DistinctAppend(before.students, caller.id);
        Step(Reply(Ok, Record(id, after)), store[id := after])
  }
}
