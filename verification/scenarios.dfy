/**
 Concrete request sequences the routes are meant to handle, stated over the
 whole pipeline.
 */
module Scenarios {
  import opened Courses
  import opened Students
  import opened Validation
  import opened CourseRoutes
  import opened Pipeline

  /**
   The same caller enrolling twice: the first request succeeds and appends
   the caller, the second is refused with 400 and changes nothing, and the
   caller appears exactly once.
   */
  lemma EnrollTwice(v: Validator, store: Store, caller: Caller, id: CourseId)
    requires id in store && caller.id !in store[id].students
    ensures
      var first := Handle(v, store, caller, EnrollIn(id));
      var second := Handle(v, first.store, caller, EnrollIn(id));
      && first.reply.status == Ok
      && second.reply.status == BadRequest
      && second.store == first.store
      && |second.store[id].students| == |store[id].students| + 1
      && Occurrences(second.store[id].students, caller.id) == 1
  {
  }

  /** Enrolment does not look at the caller's role: only the identity matters. */
  lemma EnrollIgnoresRole(store: Store, u: UserId, role1: string, role2: string, id: CourseId)
    ensures Enroll(store, Caller(u, role1), id) == Enroll(store, Caller(u, role2), id)
  {
  }

  /**
   An admin creating `{title: "A", description: "B", price: 10}` gets 201
   and a new record with those fields and nobody enrolled.
   */
  lemma CreateExample(v: Validator, store: Store, admin: Caller)
    requires IsAdmin(admin)
    requires v.notEmpty(Text("A")) && v.notEmpty(Text("B")) && v.isNumeric(Number(10.0))
    ensures
      var r := Handle(v, store, admin, CreateCourse(Payload(Some(Text("A")), Some(Text("B")), Some(Number(10.0)))));
      && r.reply.status == Created
      && r.reply.body.Record?
      && r.reply.body.id !in store
      && r.store[r.reply.body.id] == Course(Text("A"), Text("B"), Number(10.0), [])
  {
  }

  /**
   Updating `{title: "A", description: "B", price: 10}` with `{price: 20}`
   gives `{title: "A", description: "B", price: 20}` and keeps the enrolments.
   */
  lemma UpdateExample(v: Validator, store: Store, admin: Caller, id: CourseId, students: seq<UserId>)
    requires IsAdmin(admin)
    requires id in store && store[id] == Course(Text("A"), Text("B"), Number(10.0), students)
    ensures
      var r := Handle(v, store, admin, UpdateCourse(id, Payload(None, None, Some(Number(20.0)))));
      && r.reply.status == Ok
      && r.store[id] == Course(Text("A"), Text("B"), Number(20.0), students)
  {
  }

  /**
   After an admin deletes a course, every request addressed to it is answered
   404: an update or delete by an admin, an enrolment by anybody.
   */
  lemma DeletedIsGone(v: Validator, store: Store, admin: Caller, other: Caller, id: CourseId, req: Request)
    requires IsAdmin(admin) && id in store
    requires req.EnrollIn? || IsAdmin(other)
    requires !req.CreateCourse? && req.id == id
    ensures
      var gone := Handle(v, store, admin, DeleteCourse(id));
      && gone.reply.status == Ok
      && id !in gone.store
      && Handle(v, gone.store, other, req).reply.status == NotFound
  {
  }
}
