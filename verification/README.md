# School-management demo server: request-handling core in Dafny

The server keeps its data in plain in-memory arrays. These are users, students,
teachers, attendance records and performance records. It answers role-gated
JSON routes for admins, teachers and students. This project models the part
that decides what each request does, as pure functions:

- the `x-username` principal resolver and the `authorizeRole` gate;
- `/api/login`;
- the admin student routes: list, create, update and delete;
- the teacher routes: own classes, class roster, recording attendance,
  performance lookup and upsert, and the attendance report;
- the student routes: academic records, own attendance and feedback.

A writing route handler is a function from the collection it owns (plus the
request fields) to a `Reply`: the collection afterwards and a `Response`, which
is a status code and a JSON payload. A reading route handler returns just the
`Response`, or the sequence of matching records. `Server.Dispatch` wraps each
in a `Reply` over the whole store. `Server.Handle` puts them together into one step
`(Store, header, Request) -> (Store, Response)`. `Server.Run` folds that step
over a sequence of requests.

Request bodies are modelled as JSON values (`JsValues.JsValue`), one
`Option<JsValue>` per field, where `None` is a key the body lacks (`undefined`).
The handlers use two different notions of "present":

- `Given`: the JavaScript truthiness that `!field` tests. `null`, `false`, `0`
  and `""` are falsy, and every array or object is truthy. Student validation,
  the student patch, attendance validation and the `studentId` check of the
  performance upsert use it.
- `.Some?`: the `!== undefined` test. The performance merge uses it, so `0`
  or `""` does overwrite a stored field.

`===` is `StrictEq`. It is value equality on primitives and never holds for an
array or object. Each parsed body holds fresh arrays and objects, so such a
value never matches anything stored earlier. A student or performance id sent
as the string `"3"` never matches the number `3`.

Modules: `Wrappers` (Option), `JsValues`, `Seqs` (`findIndex`, `filter` and
`splice` on sequences), `Domain` (records and responses), `Access`, `Students`,
`Teachers`, `Attendance`, `Performance`, `Server`, and `Seed` (the demo data of
`backend/data.js` and example scenarios over it).

Details of the code the model keeps:

- A new student gets the last element's id + 1, or 1 for an empty list
  (`backend/server.js:80`). `Students.NextIdIsMaxPlusOne` shows this equals the
  largest id + 1 while ids ascend. `Students.Create`, `Students.Update` and
  `Students.Delete` all keep ids ascending.
- Seeded `teacher1` has user id 2, but the only teacher has id 1, so
  `/api/teacher/classes` answers 404 (`Seed.TeacherOneHasNoClasses`).
  `student1` (id 3) likewise has no student record
  (`Seed.StudentOneHasNoRecords`).
- Feedback falls back to `[]` when the stored feedback is falsy, not only when
  it is unset (`backend/server.js:199`).
- Student creation and update, attendance validation and the performance
  `studentId` check test truthiness, so `0` or `false` counts as missing
  (`backend/server.js:76`, `96-98`, `129`, `154`).

## Model

| member | source | states |
|---|---|---|
| Seqs.FindIndex | backend/server.js:104-105 | `findIndex`: -1 exactly when no element matches, otherwise the first matching position |
| Seqs.Filter | backend/server.js:123 | `filter`: an element is in the result iff it is in the input and matches; matching elements keep their multiplicity and others are dropped |
| Seqs.FilterAppend | backend/server.js:173 | filtering distributes over concatenation, so the query results keep store order |
| Seqs.RemoveAt | backend/server.js:108 | `splice(i, 1)`: the element at i is dropped, the elements before it stay and the ones after it shift down by one, and the length drops by one |
| Seqs.FilterRemoveAt | backend/server.js:137 | splicing out a record that a filter rejects leaves that filter's result unchanged |
| Access.ResolvePrincipal | backend/server.js:58-67 | a principal is bound iff the header is present, non-empty and names some user; the bound user is the first with that username |
| Access.Login | backend/server.js:45-54 | 200 iff some user matches both username and password as strings; the body is the first such user without its password; otherwise 401 "Invalid credentials" |
| Access.LoginThenResolve | backend/server.js:57-64 | after a successful login, sending the username as header binds a user with that username |
| Students.NextIdFresh | backend/server.js:80 | with ascending ids, the id create assigns exceeds every id in the list |
| Students.NextIdIsMaxPlusOne | backend/server.js:80 | with ascending ids, "last id + 1" equals "largest id + 1" |
| Students.Create | backend/server.js:74-87 | a missing or falsy name, class or subjects gives 400 and no change; otherwise exactly one record with id last+1 (or 1) and the given fields is appended, returned with 201; ascending ids are kept and the new id is not in use |
| Students.Update | backend/server.js:89-100 | 404 with no change iff no student has the id; otherwise only the first match changes, each of its fields taking the supplied value iff that value is truthy, its id kept; 200 with the updated student; ascending ids are kept |
| Students.Delete | backend/server.js:102-110 | 404 with no change iff no student has the id; otherwise the first match is spliced out and the rest keep their order, 204; with ascending ids the id is then gone |
| Students.InClass | backend/server.js:121-125 | the roster holds exactly the students whose class is that string, with multiplicity |
| Students.CreateThenDelete | backend/server.js:80-108 | creating a student and deleting its id restores the list, so that id is reused by the next create |
| Students.UpdateIdempotent | backend/server.js:96-99 | sending the same update twice has the same effect and response as sending it once |
| Students.UpdateWithNothingGiven | backend/server.js:95-98 | an update with no truthy field leaves the list unchanged |
| Teachers.AssignedClasses | backend/server.js:113-119 | 404 iff no teacher has the principal's user id; otherwise the first such teacher's assigned classes |
| Attendance.Record | backend/server.js:127-141 | any falsy field gives 400 and no change; otherwise 201 "Attendance recorded" with the new record last; a key with an array or object part matches nothing, so the record is appended; one record per key is kept |
| Attendance.RecordReplaces | backend/server.js:132-139 | with one record per key beforehand, the submitted key afterwards has exactly the new record, and records with other keys are unchanged and in order |
| Attendance.RecordTwiceKeepsLatest | backend/server.js:133-139 | recording the same key twice leaves one record for it, with the second status |
| Attendance.ForClass | backend/server.js:171-175 | the report holds exactly the records whose classId is that string, with multiplicity |
| Attendance.ForStudent | backend/server.js:190-194 | the student's view holds exactly the records whose studentId is the principal's id, with multiplicity |
| Performance.Upsert | backend/server.js:152-169 | a falsy studentId gives 400 and no change; with no record it appends one holding exactly the supplied fields (the rest undefined); otherwise each field of the first match is overwritten iff supplied (`!== undefined`) and nothing else changes; one record per studentId is kept |
| Performance.Get | backend/server.js:143-150 | 404 iff no record has that numeric studentId; otherwise the first such record |
| Performance.AcademicRecords | backend/server.js:178-188 | 404 iff no student has the principal's id; otherwise that student plus the first performance record with that id, or `{}` iff there is none |
| Performance.Feedback | backend/server.js:196-203 | always 200; `[]` when there is no record or its feedback is falsy, otherwise the stored feedback value |
| Performance.UpsertThenGet | backend/server.js:152-168 | after an upsert with a non-zero numeric studentId, the lookup by that id succeeds and returns every field the body supplied |
| Performance.UpsertIdempotent | backend/server.js:157-167 | sending the same performance body twice has the same effect and response as once |
| Server.Dispatch | backend/server.js:70-203 | the route handlers never answer 403; read-only routes leave the store unchanged; each writing route changes only its own collection; the store invariants are kept |
| Server.Handle | backend/server.js:33-41 | a gated request gets 403 iff no principal is bound or its role differs from the route's; a 403 leaves the store unchanged; login never changes the store; users and teachers never change; the invariants are kept |
| Server.RunPreservesValid | backend/server.js:70-203 | from a valid store, any sequence of requests keeps ascending student ids, one attendance record per key and one performance record per studentId |
| Seed.InitialIsValid | backend/data.js:3-28 | the seeded store satisfies the invariants |
| Seed.CreateOnSeedGetsIdThree | backend/server.js:79-86 | an admin's create on the seeded store answers 201 with id 3, and the list then has three students |
| Seed.DeletedIdIsReused | backend/server.js:80-108 | create, delete id 3, create again: the second create also gets id 3 |
| Seed.TeacherOneHasNoClasses | backend/server.js:114-116 | seeded teacher1 (user id 2) gets 404 "Teacher not found" |
| Seed.StudentOneHasNoRecords | backend/server.js:179-181 | seeded student1 (user id 3) gets 404 "Student not found" |
| Seed.GateRejects | backend/server.js:36-39 | no header, an empty header, an unknown name or a teacher on an admin route get 403; admin1 gets 200 |
| Seed.ZeroTermOverwrites | backend/server.js:162-166 | an upsert with `term1: 0` sets term1 to 0 and keeps the stored feedback |
| Seed.StringStudentIdIsNotFound | backend/server.js:144-147 | a record stored under the string "3" is not found by the lookup for 3 |

## Left out

- HTTP plumbing is not modelled: Express, cors, body-parser, static file serving,
  `app.listen`, and routing by method and path (`backend/server.js:1-14`,
  `205-207`). A request is a `Server.Request` value. Unknown paths are not
  modelled.
- The `classes` and `subjects` collections are left out. They are imported but
  no handler reads them, and no reference between records is ever validated.
- Path parameters are modelled as integers or strings. The modelled integer is
  what `parseInt` returns. A non-numeric id gives `NaN` in the source, which
  matches no record, just like an id that is not in use.
- JSON numbers are unbounded integers. Fractional numbers, `NaN`, `Infinity`
  and double rounding above 2^53 are left out, so two ids that round to the
  same double are distinct here, and "last id + 1" stays fresh above 2^53.
- JSON serialisation is not modelled. Undefined performance fields stay as
  `None` in the payload instead of being dropped. An empty `{}` performance is
  `None`.
- Login goes through `Access.Login` whatever header is sent. In the source the
  login route is registered before the header middleware, and it never reads
  the principal.
- Headers are strings. Repeated `x-username` headers, which Node joins, are
  not modelled.
- Password security and concurrency are left out. Every request runs to
  completion before the next one, so `Server.Run` is a plain fold.
- Attendance.RecordReplaces: requires the submitted studentId, classId and date
  to be primitive values. With an array or object among them, `===` matches
  nothing, so the source appends without replacing; `Attendance.Record` states
  that case.
- Performance.UpsertIdempotent: requires a primitive studentId for the same
  reason. An array or object studentId appends a new record on every request.
