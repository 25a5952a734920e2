/**
  The request-handling core: principal resolution, the role gate and the
  routes, as one pure step from a store and a request to the next store and
  a response.
 */
module Server {
  import opened Wrappers
  import opened JsValues
  import opened Domain
  import opened Access
  import Students
  import Teachers
  import Attendance
  import Performance

  /** The in-memory collections the handlers read and write. The `classes`
      and `subjects` arrays are never read by a handler and are left out. */
  datatype Store = Store(
    users: seq<User>,
    students: seq<Student>,
    teachers: seq<Teacher>,
    attendance: seq<AttendanceRecord>,
    performance: seq<PerformanceRecord>)

  /** The role-gated routes, with their path parameters and bodies. Numeric
      path parameters are the integers `parseInt` yields. */
  datatype Route =
    | ListStudents                                               // GET    /api/admin/students
    | CreateStudent(body: Students.StudentInput)                 // POST   /api/admin/students
    | UpdateStudent(id: int, body: Students.StudentInput)        // PUT    /api/admin/students/:id
    | DeleteStudent(id: int)                                     // DELETE /api/admin/students/:id
    | TeacherClasses                                             // GET    /api/teacher/classes
    | ClassStudents(classId: string)                             // GET    /api/teacher/students/:classId
    | RecordAttendance(attendance: Attendance.AttendanceInput)   // POST   /api/teacher/attendance
    | GetPerformance(studentId: int)                             // GET    /api/teacher/performance/:studentId
    | UpsertPerformance(performance: Performance.PerformanceInput) // POST /api/teacher/performance
    | AttendanceReport(classId: string)                          // GET    /api/teacher/attendance-report/:classId
    | AcademicRecords                                            // GET    /api/student/academic-records
    | StudentAttendance                                          // GET    /api/student/attendance
    | StudentFeedback                                            // GET    /api/student/feedback

  datatype Request =
    | Login(username: Option<JsValue>, password: Option<JsValue>) // POST /api/login
    | Call(route: Route)

  function RequiredRole(route: Route): string {
    match route
    case ListStudents | CreateStudent(_) | UpdateStudent(_, _) | DeleteStudent(_) => "admin"
    case TeacherClasses | ClassStudents(_) | RecordAttendance(_) | GetPerformance(_)
       | UpsertPerformance(_) | AttendanceReport(_) => "teacher"
    case AcademicRecords | StudentAttendance | StudentFeedback => "student"
  }

  /** The routes that only read the store. */
  predicate ReadOnly(route: Route) {
    !(route.CreateStudent? || route.UpdateStudent? || route.DeleteStudent? ||
      route.RecordAttendance? || route.UpsertPerformance?)
  }

  /** The store invariants: ascending student ids, one attendance record per
      (studentId, classId, date), one performance record per studentId. */
  predicate Valid(st: Store) {
    && Students.Ascending(st.students)
    && Attendance.UniqueKeys(st.attendance)
    && Performance.UniqueStudents(st.performance)
  }

  /** Runs the handler of a route for a principal that passed the gate. */
  function Dispatch(st: Store, user: User, route: Route): (r: Reply<Store>)
    ensures r.resp.status != 403
    ensures ReadOnly(route) ==> r.next == st
    ensures route.CreateStudent? || route.UpdateStudent? || route.DeleteStudent? ==>
      r.next == st.(students := r.next.students)
    ensures route.RecordAttendance? ==> r.next == st.(attendance := r.next.attendance)
    ensures route.UpsertPerformance? ==> r.next == st.(performance := r.next.performance)
    ensures Valid(st) ==> Valid(r.next)
  {
    match route
    case ListStudents => Reply(st, Response(200, StudentList(st.students)))
    case CreateStudent(body) =>
      var r := Students.Create(st.students, body);
      Reply(st.(students := r.next), r.resp)
    case UpdateStudent(id, body) =>
      var r := Students.Update(st.students, id, body);
      Reply(st.(students := r.next), r.resp)
    case DeleteStudent(id) =>
      var r := Students.Delete(st.students, id);
      Reply(st.(students := r.next), r.resp)
    case TeacherClasses => Reply(st, Teachers.AssignedClasses(st.teachers, user.id))
    case ClassStudents(classId) =>
      Reply(st, Response(200, StudentList(Students.InClass(st.students, classId))))
    case RecordAttendance(body) =>
      var r := Attendance.Record(st.attendance, body);
      Reply(st.(attendance := r.next), r.resp)
    case GetPerformance(studentId) => Reply(st, Performance.Get(st.performance, studentId))
    case UpsertPerformance(body) =>
      var r := Performance.Upsert(st.performance, body);
      Reply(st.(performance := r.next), r.resp)
    case AttendanceReport(classId) =>
      Reply(st, Response(200, AttendanceList(Attendance.ForClass(st.attendance, classId))))
    case AcademicRecords =>
      Reply(st, Performance.AcademicRecords(st.students, st.performance, user.id))
    case StudentAttendance =>
      Reply(st, Response(200, AttendanceList(Attendance.ForStudent(st.attendance, user.id))))
    case StudentFeedback => Reply(st, Performance.Feedback(st.performance, user.id))
  }

  /** One request: login needs no principal; every other route resolves the
      `x-username` header and passes the role gate first. */
  function Handle(st: Store, header: Option<string>, req: Request): (r: Reply<Store>)
    ensures req.Login? ==> r.next == st
    ensures req.Call? ==>
      (r.resp.status == 403 <==>
         !Authorize(ResolvePrincipal(st.users, header), RequiredRole(req.route)))
    ensures r.resp.status == 403 ==> r == Reply(st, Response(403, Message(Forbidden)))
    ensures r.next.users == st.users && r.next.teachers == st.teachers
    ensures Valid(st) ==> Valid(r.next)
  {
    match req
    case Login(username, password) => Reply(st, Access.Login(st.users, username, password))
    case Call(route) =>
      var principal := ResolvePrincipal(st.users, header);
      if !Authorize(principal, RequiredRole(route)) then Reply(st, Response(403, Message(Forbidden)))
      else Dispatch(st, principal.value, route)
  }

  /** The store after a sequence of requests, each with its header. */
  function Run(st: Store, trace: seq<(Option<string>, Request)>): Store
    decreases |trace|
  {
    if |trace| == 0 then st
    else Run(Handle(st, trace[0].0, trace[0].1).next, trace[1..])
  }

  /** The invariants hold after any sequence of requests from a valid store. */
  lemma {:induction false} RunPreservesValid(st: Store, trace: seq<(Option<string>, Request)>)
    requires Valid(st)
    ensures Valid(Run(st, trace))
    ensures Run(st, trace).users == st.users && Run(st, trace).teachers == st.teachers
    decreases |trace|
  {
    if |trace| > 0 {
      RunPreservesValid(Handle(st, trace[0].0, trace[0].1).next, trace[1..]);
    }
  }
}
