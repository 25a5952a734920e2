/**
  The records the server keeps in memory and the responses it sends back.
  Field values that come straight from a request body are kept as `JsValue`,
  because the handlers store whatever the caller sent.
 */
module Domain {
  import opened Wrappers
  import opened JsValues

  /** A login account. Roles are the strings "admin", "teacher" and "student". */
  datatype User = User(id: int, username: string, password: string, role: string)

  /** A user as returned by login: every field except the password. */
  datatype UserInfo = UserInfo(id: int, username: string, role: string)

  function WithoutPassword(u: User): UserInfo {
    UserInfo(u.id, u.username, u.role)
  }

  /** A student; `cls` is the `class` field. */
  datatype Student = Student(id: int, name: JsValue, cls: JsValue, subjects: JsValue)

  datatype Teacher = Teacher(id: int, name: string, assignedClasses: seq<string>)

  datatype AttendanceRecord =
    AttendanceRecord(studentId: JsValue, classId: JsValue, date: JsValue, status: JsValue)

  /** A performance record; a `None` field is `undefined` in the stored object. */
  datatype PerformanceRecord = PerformanceRecord(
    studentId: JsValue,
    term1: Option<JsValue>,
    term2: Option<JsValue>,
    term3: Option<JsValue>,
    periodicTests: Option<JsValue>,
    feedback: Option<JsValue>)

  /** The JSON body of a response. */
  datatype Payload =
    | Message(text: string)                      // { message }
    | LoginSuccess(user: UserInfo)               // { success: true, user }
    | LoginFailure(text: string)                 // { success: false, message }
    | StudentList(students: seq<Student>)
    | StudentBody(student: Student)
    | NoContent                                  // empty 204 body
    | ClassIdList(classIds: seq<string>)
    | AttendanceList(records: seq<AttendanceRecord>)
    | PerformanceBody(record: PerformanceRecord)
    | AcademicRecord(student: Student, performance: Option<PerformanceRecord>)  // None is `{}`
    | FeedbackBody(feedback: JsValue)

  datatype Response = Response(status: int, body: Payload)

  /** What a handler leaves behind: the collection it owns, and its response. */
  datatype Reply<S> = Reply(next: S, resp: Response)

  const Forbidden := "Forbidden: Insufficient role"
  const InvalidCredentials := "Invalid credentials"
  const MissingFields := "Missing required fields"
  const MissingStudentId := "Missing studentId"
  const StudentNotFound := "Student not found"
  const TeacherNotFound := "Teacher not found"
  const PerformanceNotFound := "Performance record not found"
  const AttendanceRecorded := "Attendance recorded"
}
