# Course routes, modelled in Dafny

This project models the course resource of the eLearning back end: the four
Express route handlers in `routes/course.js` that create, update, delete and
enrol in courses. Each handler becomes a pure function from the course store
(`map<CourseId, Course>`), the caller (`{id, role}`) and the request (target
identity and body) to a reply (status code plus returned record or failing
fields) and the store after the request.

Every handler runs a fixed chain of guards before at most one write:

- create: the admin role check, then the field rules (`title` and
  `description` not empty, `price` numeric), then one new record;
- update: the admin role check, then the existence lookup, then a shallow
  merge of the body into the record, with no field rules;
- delete: the admin role check, then the existence lookup, then removal;
- enrol: no role check, the existence lookup, then the already-enrolled
  check, then the caller's identity is appended to `students`.

Modules:

- `Courses` (courses.dfy): values, courses, bodies, callers, the store, and
  the identity a new record receives.
- `Students` (students.dfy): the duplicate-freedom of an enrolment list and
  occurrence counting.
- `Validation` (validation.dfy): the create route's field rules. The library
  checks `notEmpty` and `isNumeric` are uninterpreted: a `Validator` value
  carries them as functions, so every result holds for any definition of them.
- `CourseRoutes` (routes.dfy): the four handlers and the merge used by update.
- `Pipeline` (pipeline.dfy): one dispatcher over the four routes, with the
  store-wide properties, and the store after a whole sequence of requests.
- `Scenarios` (scenarios.dfy): concrete request sequences.

`course.set(req.body)` (routes/course.js:53) overwrites only the fields the
body carries, so update is a shallow merge. `students` is an array extended
with `push` after an `includes` check (routes/course.js:92-96), so the model
uses a sequence and proves it stays duplicate-free.

## Model

| member | source | states |
|---|---|---|
| Courses.FreshId | routes/course.js:30-31 | the identity a newly saved course receives is not used by any record already in the store |
| Courses.FreshFrom | routes/course.js:30-31 | the least identity from a starting point on that the store does not use; every identity skipped over is in use |
| Validation.Errors | routes/course.js:12-16 | the reported fields are exactly the fields failing their rule (every rule is run, no short cut), a missing field fails, and the list is empty exactly when the body is valid |
| CourseRoutes.Status.Code | routes/course.js:20-99 | each reply status maps to the HTTP code the routes send (201 created, 200 by default from `res.json`, 400, 403, 404); exactly the carried-out requests get a 2xx code |
| CourseRoutes.NewCourse | routes/course.js:30 | the record built from a valid create body carries each of the body's three fields and an empty enrolment list |
| CourseRoutes.Create | routes/course.js:17-33 | non-admin gets 403 whatever the body, store unchanged; admin with an invalid body gets 400 listing exactly the failing fields, store unchanged; admin with a valid body gets 201 and the store gains exactly one record, under an identity not used before, holding the body's fields and nobody enrolled, every other record unchanged |
| CourseRoutes.Merge | routes/course.js:53 | each field the body carries is overwritten with the body's value whatever it is, each absent field keeps its value, the enrolment list is kept |
| CourseRoutes.MergeNothing | routes/course.js:53 | an update body with no fields leaves the record as it was |
| CourseRoutes.MergeCompose | routes/course.js:53 | two updates in a row equal one update with the second body laid over the first (last write wins per field) |
| CourseRoutes.MergeIdempotent | routes/course.js:53 | applying the same update body twice gives the same record as applying it once |
| CourseRoutes.MergeFull | routes/course.js:30-53 | an update body carrying all three fields gives the record create would build from that body, with the enrolment list kept |
| CourseRoutes.Update | routes/course.js:42-56 | non-admin gets 403 even for an unknown identity, store unchanged; admin on an unknown identity gets 404, store unchanged; admin on a known identity gets 200 with the merged record, same identities in the store, only that record changed, no field rule applied |
| CourseRoutes.Delete | routes/course.js:64-77 | non-admin gets 403 even for an unknown identity, store unchanged; admin on an unknown identity gets 404, store unchanged; admin on a known identity gets 200 and the store loses exactly that identity, its size drops by one, every remaining record unchanged |
| CourseRoutes.Enroll | routes/course.js:85-99 | any caller; unknown identity gets 404 and an already enrolled caller gets 400, store unchanged in both; otherwise 200, only that course changes, its fields are kept, its list is the old list with the caller appended, the caller occurs in it exactly once, and a duplicate-free list stays duplicate-free |
| Students.OccurrencesAppend | routes/course.js:96 | appending an identity adds one occurrence of it and none of any other |
| Students.OccurrencesPositive | routes/course.js:92 | an identity is in the list exactly when it occurs in it at least once |
| Students.DistinctAppend | routes/course.js:92-96 | an appended list is duplicate-free exactly when the old list was and the new identity was not in it |
| Students.DistinctAtMostOnce | routes/course.js:92-96 | in a duplicate-free list every identity occurs at most once |
| Students.AtMostOnceDistinct | routes/course.js:92-96 | a list in which no identity occurs twice is duplicate-free |
| Students.TwoPositionsTwice | routes/course.js:92-96 | an identity found at two positions occurs at least twice |
| Pipeline.Handle | routes/course.js:9-104 | each route answers only with its documented statuses; the admin check comes first on create, update and delete; a refused request leaves the store unchanged; a carried-out update, delete or enrol changes only its target record, which existed; a create adds one record under a new identity; a returned record is the stored one; duplicate-free enrolment lists stay so; a non-admin caller can only add itself to an enrolment list |
| Pipeline.Run | routes/course.js:9-104 | over any sequence of requests, duplicate-free enrolment lists stay so, and if no caller is an admin the set of course identities never changes |
| Pipeline.EnrolledAtMostOnce | routes/course.js:92-96 | after any sequence of requests from a store whose enrolment lists are duplicate-free, no user occurs more than once in any course's list |
| Scenarios.EnrollTwice | routes/course.js:85-99 | the same caller enrolling twice gets 200 then 400, the second request changes nothing, and the caller appears exactly once |
| Scenarios.EnrollIgnoresRole | routes/course.js:85-96 | enrolment gives the same result whatever the caller's role |
| Scenarios.CreateExample | routes/course.js:17-33 | an admin creating title "A", description "B", price 10 gets 201 and a new record with those fields and nobody enrolled |
| Scenarios.UpdateExample | routes/course.js:48-56 | updating title "A", description "B", price 10 with only price 20 gives title "A", description "B", price 20, enrolments kept |
| Scenarios.DeletedIsGone | routes/course.js:64-90 | after an admin deletes a course, an update or delete by an admin, or an enrolment by any caller, addressed to it is answered 404 |

## Left out

- Express routing and middleware registration (`router.post`, `router.put`, ...): the dispatcher `Pipeline.Handle` stands in for it.
- The authentication middleware: the caller is an explicit input, and how it is resolved is not part of this model.
- The `catch` blocks answering 500, their logging and the echoed error message: they arise only from runtime failures of the document store.
- Message texts and the exact shape of the JSON bodies and of the validation error array: only the status, the returned record and the failing fields are modelled.
- Document-store behaviour: `findById`, `save` and `remove` become map lookup, update and removal. Schema casting, strict-schema filtering, identity casting of a malformed id, and identifier equality are library behaviour and are not modelled.
- `models/Course` is not part of this model: request bodies are restricted to `title`, `description` and `price`, so a body that also carries `students` or `_id` is not modelled, and the empty enrolment list of a new course is assumed to be the schema default.
- Courses.FreshId: the store's generated object identifiers are replaced by the least natural number not in use; only the freshness of the identity is relied on.
- Validation.Errors: `notEmpty` and `isNumeric` are uninterpreted functions on a body value, and a missing field always fails; the library's string conversion and its handling of arrays and nested values are not modelled.
- Concurrency and the read-then-write window of enrolment: each request is handled atomically, so two interleaved enrolments of the same caller are not modelled.
- Number values use Dafny's `real`; JavaScript's floating-point numbers are not modelled.
